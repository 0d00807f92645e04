# NetDragon OTA image selection, in Dafny

This project models the over-the-air (OTA) firmware image selection of the
NetDragon `CLQYHD5SW01` four-gang switch definition in zigbee2mqtt
(`data/netdragon.js`), together with that definition's constant
endpoint-name map.

When a device asks for firmware, `ndota.getImageMeta` fetches the vendor's JSON
manifest. It then picks the first manifest entry that fits the device and
returns four fields of that entry. An entry fits when:

- its `imageType` and `manufacturerCode` strictly equal the values in the
  device's OTA query;
- its `modelId` is falsy or equals the device's `modelID`;
- its `manufacturerName` is falsy or *contains* the device's
  `manufacturerName`.

If no entry fits, an assertion fails with the message
`No image available for imageType '<imageType>'`.

Layout:

- `wrappers.dfy` (module `Wrappers`): `Option` for fields that may be
  missing, `Result` for the assertion failure.
- `js_string.dfy` (module `JsString`): the JavaScript string behaviour the
  selection depends on. `Includes` is `String.prototype.includes`, proved
  equal to a substring predicate. `IntToString` is the decimal text a template
  literal produces, proved readable back by `ParseInt`.
- `netdragon.dfy` (module `NetDragon`): manifest entries, the query
  descriptor, the device identity, the eligibility predicate, the first-match
  search, `GetImageMeta` and `Endpoint`.

Everything is pure: the source has no loop and no mutable state (the search is
one `Array.prototype.find`). So the model is datatypes, functions and lemmas.
Because values are immutable, selection cannot alter the manifest by
construction. The manifest fetch (`data/netdragon.js:20`) becomes the `images`
parameter of `GetImageMeta`.

Details of the code that the model keeps exactly:

- The name test runs one way: the device's `manufacturerName` must occur
  inside the entry's (`i.manufacturerName.includes(manufacturerName)`), not
  the reverse. `ShorterEntryNameNeverEligible` and `ManufacturerNameDirection`
  pin this down.
- The digest is read from the entry's `sha512` field.
- `modelId` and `manufacturerName` are tested only when truthy, so an empty
  string counts as absent.
- When several entries are eligible, the first in manifest order is taken,
  with no logging.

## Model

| member | source | states |
|---|---|---|
| `JsString.IncludesIsSubstring` | data/netdragon.js:27 | `hay.includes(needle)` holds exactly when `needle` occurs contiguously in `hay` (both directions; the empty needle is always found) |
| `JsString.Includes` | data/netdragon.js:27 | `String.prototype.includes` as a left-to-right scan; its meaning is given by `JsString.IncludesIsSubstring` |
| `JsString.NatToString` | data/netdragon.js:29 | the decimal rendering of a number is non-empty, made only of digits, and has no leading zero |
| `JsString.IntToString` | data/netdragon.js:29 | the `${imageType}` rendering in the failure message; its meaning is given by `JsString.IntToStringRoundTrip` |
| `JsString.ParseNatToString` | data/netdragon.js:29 | reading back the decimal digits of `n` gives `n` |
| `JsString.IntToStringRoundTrip` | data/netdragon.js:29 | reading back the rendering of any integer, negative ones included, gives the integer |
| `JsString.IntToStringInjective` | data/netdragon.js:29 | distinct integers render as distinct text |
| `NetDragon.Eligible` | data/netdragon.js:26-27 | the `find` callback; its meaning is given by `NetDragon.EligibleMeans` |
| `NetDragon.EligibleMeans` | data/netdragon.js:26-27 | an entry is eligible iff its image type and manufacturer code equal the query's, a non-empty `modelId` equals the device's model, and the device's manufacturer name is a substring of a non-empty entry name; a falsy `modelId` or name imposes nothing |
| `NetDragon.FirstEligible` | data/netdragon.js:26-27 | `find` returns an eligible index before which no entry is eligible, and returns nothing exactly when no entry is eligible |
| `NetDragon.GetImageMeta` | data/netdragon.js:15-36 | fails iff no entry is eligible, with the message naming the query's image type; on success the result is the version, size, url and digest of an eligible entry |
| `NetDragon.GetImageMetaFirstMatch` | data/netdragon.js:26-35 | when `k` is the first eligible index, the result is exactly entry `k`'s four fields, whatever later entries hold |
| `NetDragon.SelectedEntryMatchesDevice` | data/netdragon.js:26-27 | the selected entry has the query's image type and manufacturer code, a non-empty `modelId` equal to the device's, and a non-empty name containing the device's name |
| `NetDragon.FirstEligibleIsHeadOfFilter` | data/netdragon.js:26-27 | the search fails iff filtering the manifest for eligible entries leaves nothing, and otherwise selects the filter's first entry |
| `NetDragon.GetImageMetaByFilter` | data/netdragon.js:26-35 | `getImageMeta` equals: fail on an empty filter, else project the filter's first entry |
| `NetDragon.FirstEligibleAppend` | data/netdragon.js:26-27 | appending entries never changes a choice made in the prefix; with no eligible entry in the prefix, the choice is the suffix's, shifted by the prefix length |
| `NetDragon.NoImageMessage` | data/netdragon.js:29 | the failed assertion's message; `NetDragon.NoImageMessageNamesImageType` shows it identifies the image type |
| `NetDragon.NoImageMessageNamesImageType` | data/netdragon.js:29 | two image types produce the same failure message only if they are equal |
| `NetDragon.ShorterEntryNameNeverEligible` | data/netdragon.js:27 | for all inputs, an entry whose truthy name is shorter than the device's name is never eligible |
| `NetDragon.ManufacturerNameDirection` | data/netdragon.js:27 | on concrete names: a longer entry name serves a shorter device name, never the reverse; an empty entry name serves any device |
| `NetDragon.Endpoint` | data/netdragon.js:64-66 | for every device, gang `lN` of `l1..l4` maps to endpoint `N`; no other names are mapped; the numbers are exactly the endpoints 1-4 that `configure` binds (lines 69-72) |

## Left out

- The manifest download through `otacommon.getAxios().get(otaurl)` (line 20) is network I/O. The fetched array is the `images` parameter instead.
- The unused `logger` argument of `getImageMeta` is not modelled.
- `isUpdateAvailable` and `updateToLatest` (lines 42-48) only hand off to `zigbee-herdsman-converters/lib/ota/common`. That library is not part of this model, so there is no version comparison, download, digest check or transfer here.
- `configure` (lines 68-73) makes asynchronous binding calls into a foreign radio library. Only the endpoint numbers it binds are used, in `Endpoint`'s contract.
- The declarative fields of the definition (`zigbeeModel`, `fromZigbee`, `toZigbee`, `exposes`, `meta`; lines 53-75) are data for external libraries. The exception is the four gang names, which `ExposedEndpoints` records.
- `support/docgen.js` is a documentation script built on file I/O and YAML. It is not part of this model.
- JavaScript dynamic typing is left out. Entry fields are assumed to have the manifest's types. So the model does not capture these cases: strict equality failing on a numeric string such as `"0"`, a non-string truthy `modelId`, a non-string truthy `manufacturerName` (an array would turn `includes` into an exact element test, a number would make the call throw `TypeError`), or a missing projected field coming back as `undefined`.
- Numbers are JavaScript doubles; the model uses exact `int`s. Values at or above 2^53 (where `===` can merge distinct integers) and the exponent form that `${n}` takes from 1e21 up are not captured. OTA image types and manufacturer codes are 16-bit, well inside the exact range.
- The device's `modelID` and `manufacturerName` are assumed present. When they are `undefined`, JavaScript compares against `undefined` and searches for the text `"undefined"`; the model does not capture that.
- Caching, concurrency and session handling do not exist in this source file, so they are not modelled.
