/** The NetDragon four-gang switch definition: its over-the-air image
    selection (`ndota.getImageMeta`) and its endpoint-name map. */
module NetDragon {
  import opened Wrappers
  import opened JsString

  /** One object of the vendor's JSON manifest. `modelId` and
      `manufacturerName` may be missing (`None`). */
  datatype Entry = Entry(
    imageType: int,
    manufacturerCode: int,
    modelId: Option<string>,
    manufacturerName: Option<string>,
    fileVersion: int,
    fileSize: int,
    url: string,
    sha512: string)

  /** The image descriptor that the device reports in its OTA query. */
  datatype Current = Current(imageType: int, manufacturerCode: int)

  /** The identity attributes of the device asking for an image. */
  datatype Device = Device(modelID: string, manufacturerName: string)

  /** What `getImageMeta` hands back to the OTA layer. */
  datatype ImageMeta = ImageMeta(fileVersion: int, fileSize: int, url: string, sha512: string)

  /** JavaScript truthiness of an optional string field: a missing field and
      the empty string are both falsy. */
  predicate Truthy(field: Option<string>)
  {
    field.Some? && field.value != ""
  }

  /** The `find` callback: same image type and manufacturer code under strict
      equality, a truthy `modelId` must equal the device's, and a truthy
      `manufacturerName` must contain the device's name. */
  predicate Eligible(e: Entry, current: Current, device: Device)
  {
    && e.imageType == current.imageType
    && e.manufacturerCode == current.manufacturerCode
    && (!Truthy(e.modelId) || e.modelId.value == device.modelID)
    && (!Truthy(e.manufacturerName) || Includes(e.manufacturerName.value, device.manufacturerName))
  }

  /** Eligibility spelled out condition by condition, with `includes` read as
      "the device's name is a substring of the entry's name". A falsy
      `modelId` or `manufacturerName` places no constraint at all. */
  lemma EligibleMeans(e: Entry, current: Current, device: Device)
    ensures Eligible(e, current, device) <==>
      && e.imageType == current.imageType
      && e.manufacturerCode == current.manufacturerCode
      && (e.modelId.Some? && e.modelId.value != "" ==> e.modelId.value == device.modelID)
      && (e.manufacturerName.Some? && e.manufacturerName.value != "" ==>
            IsSubstring(device.manufacturerName, e.manufacturerName.value))
  {
    if e.manufacturerName.Some? {
      IncludesIsSubstring(e.manufacturerName.value, device.manufacturerName);
    }
  }

  /** `images.find(...)`, as the index of the entry it returns: the first
      eligible index in list order, or `None` when no entry is eligible. */
  function FirstEligible(images: seq<Entry>, current: Current, device: Device): (r: Option<nat>)
    ensures r.Some? ==> r.value < |images| && Eligible(images[r.value], current, device)
    ensures r.Some? ==> forall j :: 0 <= j < r.value ==> !Eligible(images[j], current, device)
    ensures r.None? <==> forall j :: 0 <= j < |images| ==> !Eligible(images[j], current, device)
    decreases |images|
  {
    if |images| == 0 then None
    else if Eligible(images[0], current, device) then Some(0)
    else match FirstEligible(images[1..], current, device)
      case None => None
      case Some(k) => Some(k + 1)
  }

  const NoImagePrefix: string := "No image available for imageType '"

  /** The message of the assertion that fails when nothing is eligible. */
  function NoImageMessage(imageType: int): string
  {
    NoImagePrefix + IntToString(imageType) + "'"
  }

  /** `getImageMeta` once the manifest has been fetched: the first eligible
      entry reduced to the four fields the OTA layer needs, or the failed
      assertion's message when no entry is eligible. */
  function GetImageMeta(current: Current, device: Device, images: seq<Entry>): (r: Result<ImageMeta, string>)
    ensures r.Failure? <==> forall j :: 0 <= j < |images| ==> !Eligible(images[j], current, device)
    ensures r.Failure? ==> r.error == NoImageMessage(current.imageType)
    ensures r.Success? ==>
      exists k :: (0 <= k < |images| && Eligible(images[k], current, device) &&
        r.value == ImageMeta(images[k].fileVersion, images[k].fileSize, images[k].url, images[k].sha512))
  {
    match FirstEligible(images, current, device)
    case None => Failure(NoImageMessage(current.imageType))
    case Some(k) =>
      var image := images[k];
      Success(ImageMeta(image.fileVersion, image.fileSize, image.url, image.sha512))
  }

  /** First match wins: when `k` is the first eligible index, the result is
      exactly entry `k`'s version, size, url and digest, whatever follows. */
  lemma GetImageMetaFirstMatch(current: Current, device: Device, images: seq<Entry>, k: nat)
    requires k < |images| && Eligible(images[k], current, device)
    requires forall j :: 0 <= j < k ==> !Eligible(images[j], current, device)
    ensures GetImageMeta(current, device, images) ==
      Success(ImageMeta(images[k].fileVersion, images[k].fileSize, images[k].url, images[k].sha512))
  {
  }

  /** A selected entry agrees with the device on every identity field it
      carries: image type, manufacturer code, and a non-empty model or name. */
  lemma SelectedEntryMatchesDevice(current: Current, device: Device, images: seq<Entry>, k: nat)
    requires FirstEligible(images, current, device) == Some(k)
    ensures k < |images|
    ensures images[k].imageType == current.imageType
    ensures images[k].manufacturerCode == current.manufacturerCode
    ensures images[k].modelId.Some? && images[k].modelId.value != "" ==>
      images[k].modelId.value == device.modelID
    ensures images[k].manufacturerName.Some? && images[k].manufacturerName.value != "" ==>
      IsSubstring(device.manufacturerName, images[k].manufacturerName.value)
  {
    EligibleMeans(images[k], current, device);
  }

  /** The eligible entries in manifest order: an independent description of
      the search, as a filter. */
  function EligibleEntries(images: seq<Entry>, current: Current, device: Device): seq<Entry>
    decreases |images|
  {
    if |images| == 0 then []
    else if Eligible(images[0], current, device) then [images[0]] + EligibleEntries(images[1..], current, device)
    else EligibleEntries(images[1..], current, device)
  }

  /** `find` is the head of the filter: it fails exactly when the filter is
      empty and otherwise picks the filter's first entry. */
  lemma {:induction false} FirstEligibleIsHeadOfFilter(images: seq<Entry>, current: Current, device: Device)
    ensures FirstEligible(images, current, device).None? <==> EligibleEntries(images, current, device) == []
    ensures FirstEligible(images, current, device).Some? ==>
      images[FirstEligible(images, current, device).value] == EligibleEntries(images, current, device)[0]
    decreases |images|
  {
    if |images| > 0 && !Eligible(images[0], current, device) {
      FirstEligibleIsHeadOfFilter(images[1..], current, device);
    }
  }

  /** `getImageMeta` described through the filter alone. */
  lemma GetImageMetaByFilter(current: Current, device: Device, images: seq<Entry>)
    ensures var eligible := EligibleEntries(images, current, device);
      GetImageMeta(current, device, images) ==
        if eligible == [] then Failure(NoImageMessage(current.imageType))
        else Success(ImageMeta(eligible[0].fileVersion, eligible[0].fileSize, eligible[0].url, eligible[0].sha512))
  {
  }

  /** Entries placed after a manifest prefix never change a choice already made
      in the prefix; if the prefix holds nothing eligible, the choice is made
      in the suffix, at an index shifted by the prefix's length. */
  lemma {:induction false} FirstEligibleAppend(front: seq<Entry>, back: seq<Entry>, current: Current, device: Device)
    ensures FirstEligible(front + back, current, device) ==
      match FirstEligible(front, current, device)
      case Some(k) => Some(k)
      case None =>
        match FirstEligible(back, current, device)
        case None => None
        case Some(k) => Some(|front| + k)
    decreases |front|
  {
    if |front| > 0 {
      assert (front + back)[0] == front[0];
      assert (front + back)[1..] == front[1..] + back;
      FirstEligibleAppend(front[1..], back, current, device);
    } else {
      assert front + back == back;
    }
  }

  /** The failure message names the requested image type unambiguously: two
      image types give the same message only if they are equal. */
  lemma NoImageMessageNamesImageType(t: int, u: int)
    ensures NoImageMessage(t) == NoImageMessage(u) ==> t == u
  {
    var m, n := NoImageMessage(t), NoImageMessage(u);
    assert m[|NoImagePrefix|..|m| - 1] == IntToString(t);
    assert n[|NoImagePrefix|..|n| - 1] == IntToString(u);
    IntToStringInjective(t, u);
  }

  /** The direction of the name test: an entry named "_TZ3000_ab" serves a
      device named "_TZ3000", but an entry named "_TZ3000" does not serve a
      device named "_TZ3000_ab". A missing or empty entry name serves both. */
  lemma ManufacturerNameDirection()
    ensures Eligible(Entry(0, 4107, None, Some("_TZ3000_ab"), 20, 1024, "u", "d"),
                     Current(0, 4107), Device("X", "_TZ3000"))
    ensures !Eligible(Entry(0, 4107, None, Some("_TZ3000"), 20, 1024, "u", "d"),
                      Current(0, 4107), Device("X", "_TZ3000_ab"))
    ensures Eligible(Entry(0, 4107, None, Some(""), 20, 1024, "u", "d"),
                     Current(0, 4107), Device("X", "_TZ3000_ab"))
  {
  }

  /** For all inputs: an entry whose truthy name is shorter than the device's
      name can never serve that device, since the test looks for the device's
      name inside the entry's and not the other way round. */
  lemma ShorterEntryNameNeverEligible(e: Entry, current: Current, device: Device)
    requires Truthy(e.manufacturerName)
    requires |e.manufacturerName.value| < |device.manufacturerName|
    ensures !Eligible(e, current, device)
  {
    IncludesIsSubstring(e.manufacturerName.value, device.manufacturerName);
  }

  /** The switch's gang names, as exposed (one switch per endpoint). */
  const ExposedEndpoints: seq<string> := ["l1", "l2", "l3", "l4"]

  /** The definition's `endpoint` map: gang `lN` is Zigbee endpoint `N`, for
      every device; the numbers are the endpoints `configure` binds. */
  function Endpoint(device: Device): (m: map<string, nat>)
    ensures forall i :: 0 <= i < |ExposedEndpoints| ==>
      ExposedEndpoints[i] in m && m[ExposedEndpoints[i]] == i + 1
    ensures forall name :: name in m ==> name in ExposedEndpoints
    ensures m.Values == {1, 2, 3, 4}
  {
    var m := map["l1" := 1, "l2" := 2, "l3" := 3, "l4" := 4];
    assert m["l1"] == 1 && m["l2"] == 2 && m["l3"] == 3 && m["l4"] == 4;
    m
  }
}
