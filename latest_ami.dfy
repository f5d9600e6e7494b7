/**
 * The latest-image lookup (latest_ami.py): pick the newest image of a
 * `describe_images` response, derive the lines of its detail report and the
 * 90-day verdict. The response is an input (None when the call raised), and
 * creation dates and "now" are seconds since the epoch.
 */
module LatestAmi {
  import opened Optional
  import opened Timestamps
  import opened Decimal

  const NotAvailable: string := "N/A"
  const EncryptedLabel: string := "Encrypted"
  const NotEncryptedLabel: string := "Not Encrypted"
  const TagsHeading: string := "Tags:"
  const DevicesHeading: string := "Block Device Mappings:"

  datatype Tag = Tag(key: string, value: string)

  /** The `Ebs` part of a block-device mapping; each field may be absent. */
  datatype Ebs = Ebs(volumeSize: Option<int>, volumeType: Option<string>, encrypted: Option<bool>)

  datatype BlockDeviceMapping = BlockDeviceMapping(deviceName: string, ebs: Option<Ebs>)

  /**
   * The fields of an image record that the script reads. The fields it reads
   * with `ami[...]` are always there; those it reads with `.get` or tests
   * with `in` may be absent.
   */
  datatype Image = Image(
    imageId: string,
    name: string,
    description: Option<string>,
    ownerId: string,
    architecture: string,
    rootDeviceType: string,
    virtualizationType: string,
    state: string,
    creationDate: int,
    tags: Option<seq<Tag>>,
    blockDeviceMappings: Option<seq<BlockDeviceMapping>>)

  // ----- get_latest_ami ----------------------------------------------------

  /**
   * The position `max(images, key=creation date)` picks: a latest image, and
   * among several latest ones the first, since `max` only replaces its
   * candidate with a strictly greater one.
   */
  function LatestIndex(images: seq<Image>): (k: nat)
    requires |images| > 0
    ensures k < |images|
    ensures forall j :: 0 <= j < |images| ==> images[j].creationDate <= images[k].creationDate
    ensures forall j :: 0 <= j < k ==> images[j].creationDate < images[k].creationDate
  {
    if |images| == 1 then 0
    else
      var best := LatestIndex(images[..|images| - 1]);
      if images[|images| - 1].creationDate > images[best].creationDate then |images| - 1 else best
  }

  /** The two properties of LatestIndex determine it. */
  lemma LatestIndexUnique(images: seq<Image>, k: nat)
    requires k < |images|
    requires forall j :: 0 <= j < |images| ==> images[j].creationDate <= images[k].creationDate
    requires forall j :: 0 <= j < k ==> images[j].creationDate < images[k].creationDate
    ensures k == LatestIndex(images)
  {
  }

  /** `get_latest_ami`: None when the call raised or matched nothing, otherwise the latest image. */
  function GetLatestAmi(response: Option<seq<Image>>): (r: Option<Image>)
    ensures r.None? <==> response.None? || response.value == []
    ensures r.Some? ==> exists k ::
      && 0 <= k < |response.value| && response.value[k] == r.value
      && (forall j :: 0 <= j < |response.value| ==> response.value[j].creationDate <= r.value.creationDate)
      && (forall j :: 0 <= j < k ==> response.value[j].creationDate < r.value.creationDate)
  {
    match response
    case None => None
    case Some(images) =>
      if |images| == 0 then None else Some(images[LatestIndex(images)])
  }

  /** Of two images created at T1 < T2, the one created at T2 is selected, whichever comes first. */
  lemma LatestOfTwo(a: Image, b: Image)
    requires a.creationDate < b.creationDate
    ensures GetLatestAmi(Some([a, b])) == Some(b)
    ensures GetLatestAmi(Some([b, a])) == Some(b)
  {
    assert [a, b][..1] == [a];
    assert [b, a][..1] == [b];
  }

  /** Among images with the same latest creation date the first one listed is returned. */
  lemma LatestTieKeepsFirst(images: seq<Image>, i: nat, j: nat)
    requires i < j < |images|
    requires images[i].creationDate == images[j].creationDate
    requires forall k :: 0 <= k < |images| ==> images[k].creationDate <= images[i].creationDate
    ensures LatestIndex(images) <= i
  {
  }

  // ----- format_ami_info ---------------------------------------------------

  /** One line of the detail report, without its padding. */
  datatype Line =
    | Heading(text: string)
    | Field(caption: string, value: string)
    | CreatedField(creationDate: int)
    | AgeField(ageDays: int)
    | TagLine(key: string, value: string)
    | DeviceLine(deviceName: string, size: string, volumeType: string, encryption: string)

  /** The fixed block of fields; the description defaults to `N/A`. */
  function HeaderLines(ami: Image, now: int): (lines: seq<Line>)
    ensures |lines| == 11
    ensures lines[3] == Field("Description", if ami.description.Some? then ami.description.value else NotAvailable)
    ensures lines[10] == AgeField(AgeDays(now, ami.creationDate))
    ensures forall i :: 0 <= i < 11 ==> lines[i] != Heading(TagsHeading) && lines[i] != Heading(DevicesHeading)
  {
    [ Heading("Latest AMI Found:"),
      Field("AMI ID", ami.imageId),
      Field("Name", ami.name),
      Field("Description", ami.description.GetOr(NotAvailable)),
      Field("Owner ID", ami.ownerId),
      Field("Architecture", ami.architecture),
      Field("Root Device", ami.rootDeviceType),
      Field("Virtualization", ami.virtualizationType),
      Field("State", ami.state),
      CreatedField(ami.creationDate),
      AgeField(AgeDays(now, ami.creationDate)) ]
  }

  /** Whether the record has a non-empty `Tags` list: `'Tags' in ami and ami['Tags']`. */
  predicate HasTags(tags: Option<seq<Tag>>)
  {
    tags.Some? && |tags.value| > 0
  }

  /** The tags block: a heading and one line per tag in order, or nothing at all. */
  function TagLines(tags: Option<seq<Tag>>): (lines: seq<Line>)
    ensures |lines| == (if HasTags(tags) then |tags.value| + 1 else 0)
    ensures forall i :: 0 < i < |lines| ==> lines[i] == TagLine(tags.value[i - 1].key, tags.value[i - 1].value)
    ensures forall i :: 0 <= i < |lines| ==> (lines[i] == Heading(TagsHeading) <==> i == 0)
    ensures Heading(DevicesHeading) !in lines
  {
    if HasTags(tags) then
      var ts := tags.value;
      [Heading(TagsHeading)] + seq(|ts|, i requires 0 <= i < |ts| => TagLine(ts[i].key, ts[i].value))
    else []
  }

  /** `ebs.get('VolumeSize', 'N/A')` as the f-string renders it. */
  function SizeText(size: Option<int>): (s: string)
    ensures size.Some? ==> ParseInt(s) == Some(size.value)
    ensures size.None? ==> s == NotAvailable
  {
    if size.Some? then
      IntRoundTrip(size.value);
      IntToText(size.value)
    else NotAvailable
  }

  /** The line for one EBS volume: size and type fall back to `N/A`; encrypted only when `Encrypted` is present and true. */
  function EbsLine(deviceName: string, ebs: Ebs): (line: Line)
    ensures line.DeviceLine? && line.deviceName == deviceName
    ensures ebs.volumeSize.Some? ==> ParseInt(line.size) == Some(ebs.volumeSize.value)
    ensures ebs.volumeSize.None? ==> line.size == NotAvailable
    ensures line.volumeType == if ebs.volumeType.Some? then ebs.volumeType.value else NotAvailable
    ensures line.encryption == EncryptedLabel <==> ebs.encrypted == Some(true)
    ensures line.encryption == NotEncryptedLabel <==> ebs.encrypted != Some(true)
  {
    DeviceLine(
      deviceName,
      SizeText(ebs.volumeSize),
      ebs.volumeType.GetOr(NotAvailable),
      if ebs.encrypted.GetOr(false) then EncryptedLabel else NotEncryptedLabel)
  }

  /** The device lines: mappings without `Ebs` are skipped, the others keep their order. */
  function DeviceLines(mappings: seq<BlockDeviceMapping>): (lines: seq<Line>)
    ensures |lines| <= |mappings|
    ensures forall line :: line in lines ==> line.DeviceLine?
  {
    if |mappings| == 0 then []
    else
      var init, m := mappings[..|mappings| - 1], mappings[|mappings| - 1];
      DeviceLines(init) + (if m.ebs.Some? then [EbsLine(m.deviceName, m.ebs.value)] else [])
  }

  lemma {:induction false} DeviceLinesConcat(a: seq<BlockDeviceMapping>, b: seq<BlockDeviceMapping>)
    ensures DeviceLines(a + b) == DeviceLines(a) + DeviceLines(b)
  {
    if |b| == 0 {
      assert a + b == a;
    } else {
      var init := b[..|b| - 1];
      assert (a + b)[..|a + b| - 1] == a + init;
      DeviceLinesConcat(a, init);
    }
  }

  /** A single mapping yields its line exactly when it has `Ebs`. */
  lemma DeviceLinesSingle(m: BlockDeviceMapping)
    ensures DeviceLines([m]) == if m.ebs.Some? then [EbsLine(m.deviceName, m.ebs.value)] else []
  {
    assert [m][..0] == [];
  }

  /** The mappings that carry `Ebs`, in order. */
  function EbsMappings(mappings: seq<BlockDeviceMapping>): (r: seq<BlockDeviceMapping>)
    ensures forall m :: m in r <==> m in mappings && m.ebs.Some?
  {
    if |mappings| == 0 then []
    else
      var init, m := mappings[..|mappings| - 1], mappings[|mappings| - 1];
      assert mappings == init + [m];
      EbsMappings(init) + (if m.ebs.Some? then [m] else [])
  }

  /** The i-th device line is the line of the i-th mapping that has `Ebs`. */
  lemma {:induction false} DeviceLinesFollowEbsMappings(mappings: seq<BlockDeviceMapping>)
    ensures |DeviceLines(mappings)| == |EbsMappings(mappings)|
    ensures forall i :: 0 <= i < |DeviceLines(mappings)| ==>
      DeviceLines(mappings)[i] == EbsLine(EbsMappings(mappings)[i].deviceName, EbsMappings(mappings)[i].ebs.value)
  {
    if |mappings| > 0 {
      DeviceLinesFollowEbsMappings(mappings[..|mappings| - 1]);
    }
  }

  /**
   * `format_ami_info`: the fields, the tags block, then the device block.
   * The description shows its `N/A` default, a tags heading appears iff the
   * image has a non-empty `Tags` list, and the device heading comes once,
   * right before exactly the device lines.
   */
  function FormatAmiInfo(ami: Image, now: int): (lines: seq<Line>)
    ensures |lines| >= 12
    ensures lines[3] == Field("Description", if ami.description.Some? then ami.description.value else NotAvailable)
    ensures lines[10] == AgeField(AgeDays(now, ami.creationDate))
    ensures Heading(TagsHeading) in lines <==> HasTags(ami.tags)
    ensures var devices := DeviceLines(ami.blockDeviceMappings.GetOr([]));
      && |lines| == 12 + |TagLines(ami.tags)| + |devices|
      && lines[11 + |TagLines(ami.tags)|] == Heading(DevicesHeading)
      && lines[12 + |TagLines(ami.tags)|..] == devices
  {
    HeaderLines(ami, now) + TagLines(ami.tags) + [Heading(DevicesHeading)]
      + DeviceLines(ami.blockDeviceMappings.GetOr([]))
  }

  // ----- main: the verdict -------------------------------------------------

  datatype Verdict = TooOld(ageDays: int) | WithinPolicy(ageDays: int)

  /** Warning iff the age is strictly above 90 days. */
  function VerdictFor(ageDays: int): (v: Verdict)
    ensures v.ageDays == ageDays
    ensures v.TooOld? <==> ageDays > RotationDays
  {
    if ageDays > RotationDays then TooOld(ageDays) else WithinPolicy(ageDays)
  }

  /** As time passes a flagged image stays flagged. */
  lemma VerdictStaysTooOld(creation: int, now: int, later: int)
    requires now <= later
    requires VerdictFor(AgeDays(now, creation)).TooOld?
    ensures VerdictFor(AgeDays(later, creation)).TooOld?
  {
    AgeDaysMonotone(now, later, creation);
  }

  /** The message when no image matched: one line, the heading of the reasons, and four reasons. */
  const NotFoundLines: seq<string> := [
    "No AMI found matching the specified criteria.",
    "Possible reasons:",
    "- No AMIs with the specified name pattern exist",
    "- AMIs might be owned by a different account",
    "- AMIs might be in a different region",
    "- AMIs might be in 'pending' or 'failed' state"]

  datatype LookupReport = NotFound(lines: seq<string>) | Found(detail: seq<Line>, verdict: Verdict)

  /** `main`: the detail block and the verdict for the latest image, or the not-found message. */
  function LatestAmiReport(response: Option<seq<Image>>, now: int): (r: LookupReport)
    ensures r.NotFound? <==> response.None? || response.value == []
    ensures r.NotFound? ==> r.lines == NotFoundLines
    ensures r.Found? ==>
      var ami := GetLatestAmi(response).value;
      && ami in response.value
      && r.detail == FormatAmiInfo(ami, now)
      && r.verdict == VerdictFor(AgeDays(now, ami.creationDate))
      && (r.verdict.TooOld? <==> AgeDays(now, ami.creationDate) > RotationDays)
      && (forall x :: x in response.value ==> AgeDays(now, x.creationDate) >= r.verdict.ageDays)
  {
    match GetLatestAmi(response)
    case None => NotFound(NotFoundLines)
    case Some(ami) =>
      Found(FormatAmiInfo(ami, now), VerdictFor(AgeDays(now, ami.creationDate)))
  }
}
