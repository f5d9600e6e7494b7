/**
 * The fleet audit (check_ami.py): list the instances that are not
 * terminated, collect the AMI ids they run, look up each AMI's name and age,
 * flag the AMIs older than the rotation threshold, and lay out the report
 * tables. The two EC2 calls are inputs: the `describe_instances` response
 * (None when the call raised) and the `describe_images` call as a function
 * of the ids asked for.
 */
module CheckAmi {
  import opened Optional
  import opened Sequences
  import opened Timestamps
  import opened StringOrder

  const Terminated: string := "terminated"
  const UnknownName: string := "Unknown"
  /** Longest AMI name the table shows. */
  const NameWidth: nat := 29

  /** The fields of an EC2 instance record that the script reads. */
  datatype Instance = Instance(
    instanceId: string,
    instanceType: string,
    imageId: string,
    launchTime: int,
    stateName: string)

  datatype Reservation = Reservation(instances: seq<Instance>)

  /** The fields of a `describe_images` record that the script reads; `Name` may be absent. */
  datatype Image = Image(imageId: string, name: Option<string>, creationDate: int)

  /** One value of the `ami_info` dictionary. */
  datatype AmiInfo = AmiInfo(name: string, creationDate: int, ageDays: int)

  /**
   * The `ami_info` dictionary as its items in insertion order, which is the
   * order in which Python iterates it.
   */
  datatype Item = Item(id: string, info: AmiInfo)
  type InfoDict = seq<Item>

  // ----- get_ec2_instances -------------------------------------------------

  /** All instances of all reservations, reservation by reservation. */
  function Flatten(rs: seq<Reservation>): (all: seq<Instance>)
    ensures forall x :: x in all <==> exists k :: 0 <= k < |rs| && x in rs[k].instances
  {
    if |rs| == 0 then []
    else Flatten(rs[..|rs| - 1]) + rs[|rs| - 1].instances
  }

  /** The instances whose state is not `terminated`, in their original order. */
  function Running(xs: seq<Instance>): (r: seq<Instance>)
    ensures forall x :: x in r ==> x in xs && x.stateName != Terminated
    ensures |r| <= |xs|
  {
    if |xs| == 0 then []
    else
      var init, last := xs[..|xs| - 1], xs[|xs| - 1];
      assert xs == init + [last];
      Running(init) + (if last.stateName == Terminated then [] else [last])
  }

  /** Filtering one more instance appends it when it is not terminated. */
  lemma RunningSnoc(xs: seq<Instance>, x: Instance)
    ensures Running(xs + [x]) == Running(xs) + (if x.stateName == Terminated then [] else [x])
  {
    assert (xs + [x])[..|xs|] == xs;
  }

  /** One more reservation appends its instances. */
  lemma FlattenSnoc(rs: seq<Reservation>, i: nat)
    requires i < |rs|
    ensures Flatten(rs[..i + 1]) == Flatten(rs[..i]) + rs[i].instances
  {
    assert rs[..i + 1][..i] == rs[..i];
  }

  /** What `get_ec2_instances` returns for a `describe_instances` response (None: the call raised). */
  function LiveInstances(response: Option<seq<Reservation>>): (live: seq<Instance>)
    ensures response.None? ==> live == []
    ensures forall x :: x in live ==> x.stateName != Terminated
  {
    match response
    case None => []
    case Some(rs) => Running(Flatten(rs))
  }

  /** Nothing that is not terminated is dropped. */
  lemma {:induction false} RunningMember(xs: seq<Instance>, x: Instance)
    ensures x in Running(xs) <==> x in xs && x.stateName != Terminated
  {
    if |xs| > 0 {
      var init, last := xs[..|xs| - 1], xs[|xs| - 1];
      assert xs == init + [last];
      RunningMember(init, x);
    }
  }

  /** The filter keeps order: it works piece by piece. */
  lemma {:induction false} RunningConcat(a: seq<Instance>, b: seq<Instance>)
    ensures Running(a + b) == Running(a) + Running(b)
  {
    if |b| == 0 {
      assert a + b == a;
    } else {
      var init, last := b[..|b| - 1], b[|b| - 1];
      var kept := if last.stateName == Terminated then [] else [last];
      assert b == init + [last];
      calc {
        Running(a + b);
        == { assert a + b == (a + init) + [last]; }
        Running((a + init) + [last]);
        == { RunningSnoc(a + init, last); }
        Running(a + init) + kept;
        == { RunningConcat(a, init); }
        (Running(a) + Running(init)) + kept;
        == { assert (Running(a) + Running(init)) + kept == Running(a) + (Running(init) + kept); }
        Running(a) + (Running(init) + kept);
        == { RunningSnoc(init, last); }
        Running(a) + Running(b);
      }
    }
  }

  /** Filtering twice is filtering once. */
  lemma {:induction false} RunningIdempotent(xs: seq<Instance>)
    ensures Running(Running(xs)) == Running(xs)
  {
    if |xs| > 0 {
      var init, last := xs[..|xs| - 1], xs[|xs| - 1];
      assert xs == init + [last];
      RunningIdempotent(init);
      RunningConcat(Running(init), if last.stateName == Terminated then [] else [last]);
    }
  }

  /** One more instance of the current reservation: the filter appends it unless it is terminated. */
  lemma RunningStep(before: seq<Instance>, batch: seq<Instance>, j: nat)
    requires j < |batch|
    ensures Running(before + batch[..j + 1]) ==
      Running(before + batch[..j]) + (if batch[j].stateName == Terminated then [] else [batch[j]])
  {
    assert before + batch[..j + 1] == (before + batch[..j]) + [batch[j]];
    RunningSnoc(before + batch[..j], batch[j]);
  }

  /** The instances kept are exactly the non-terminated instances of the response. */
  lemma LiveInstancesMember(response: Option<seq<Reservation>>, x: Instance)
    ensures x in LiveInstances(response) <==>
      response.Some? && x in Flatten(response.value) && x.stateName != Terminated
  {
    if response.Some? {
      RunningMember(Flatten(response.value), x);
    }
  }

  /** `get_ec2_instances`: the nested loop over reservations and their instances. */
  method GetEc2Instances(response: Option<seq<Reservation>>) returns (instances: seq<Instance>)
    ensures instances == LiveInstances(response)
    ensures forall x :: x in instances <==>
      response.Some? && x in Flatten(response.value) && x.stateName != Terminated
  {
    forall x
      ensures x in LiveInstances(response) <==>
        response.Some? && x in Flatten(response.value) && x.stateName != Terminated
    {
      LiveInstancesMember(response, x);
    }
    if response.None? {
      return [];
    }
    var rs := response.value;
    instances := [];
    var i := 0;
    while i < |rs|
      invariant 0 <= i <= |rs|
      invariant instances == Running(Flatten(rs[..i]))
    {
      var batch := rs[i].instances;
      ghost var before := Flatten(rs[..i]);
      assert before + batch[..0] == before;
      var j := 0;
      while j < |batch|
        invariant 0 <= j <= |batch|
        invariant instances == Running(before + batch[..j])
      {
        RunningStep(before, batch, j);
        if batch[j].stateName != Terminated {
          instances := instances + [batch[j]];
        }
        j := j + 1;
      }
      FlattenSnoc(rs, i);
      assert batch[..j] == batch;
      i := i + 1;
    }
    assert rs[..i] == rs;
  }

  // ----- get_ami_info ------------------------------------------------------

  /** The keys of the dictionary, in iteration order. */
  function Ids(d: seq<Item>): seq<string>
  {
    MapSeq((x: Item) => x.id, d)
  }

  /** A dictionary never holds a key twice. */
  predicate WellFormed(d: InfoDict)
  {
    NoDups(Ids(d))
  }

  /** `d.get(k)`. */
  function Lookup(d: InfoDict, k: string): (r: Option<AmiInfo>)
    ensures r.Some? <==> k in Ids(d)
    ensures r.Some? ==> Item(k, r.value) in d
  {
    if |d| == 0 then None
    else if d[0].id == k then Some(d[0].info)
    else
      assert Ids(d) == [d[0].id] + Ids(d[1..]);
      Lookup(d[1..], k)
  }

  /** In a well-formed dictionary the value found is the one stored under that key. */
  lemma LookupAt(d: InfoDict, i: nat)
    requires WellFormed(d) && i < |d|
    ensures Lookup(d, d[i].id) == Some(d[i].info)
  {
    var k := d[i].id;
    var v := Lookup(d, k).value;
    var j :| 0 <= j < |d| && d[j] == Item(k, v);
    assert Ids(d)[i] == Ids(d)[j];
  }

  /** `d[k] = v`: a new key goes last, an existing key keeps its place and gets the new value. */
  function Put(d: InfoDict, k: string, v: AmiInfo): (r: InfoDict)
    ensures |r| == if k in Ids(d) then |d| else |d| + 1
  {
    if |d| == 0 then [Item(k, v)]
    else if d[0].id == k then [Item(k, v)] + d[1..]
    else
      assert Ids(d) == [d[0].id] + Ids(d[1..]);
      [d[0]] + Put(d[1..], k, v)
  }

  /** Assignment adds the key at the end when it is new and keeps the order of the keys otherwise. */
  lemma {:induction false} PutIds(d: InfoDict, k: string, v: AmiInfo)
    ensures Ids(Put(d, k, v)) == if k in Ids(d) then Ids(d) else Ids(d) + [k]
  {
    if |d| > 0 {
      var head, rest := d[0], d[1..];
      assert d == [head] + rest;
      IdsCons(head, rest);
      if head.id == k {
        IdsCons(Item(k, v), rest);
      } else {
        var r := Put(rest, k, v);
        PutIds(rest, k, v);
        IdsCons(head, r);
        assert k in Ids(d) <==> k in Ids(rest);
        if k !in Ids(rest) {
          assert [head.id] + (Ids(rest) + [k]) == ([head.id] + Ids(rest)) + [k];
        }
      }
    }
  }

  lemma IdsCons(x: Item, rest: InfoDict)
    ensures Ids([x] + rest) == [x.id] + Ids(rest)
  {
  }

  /** After `d[k] = v`, `k` maps to `v` and every other key to what it mapped to before. */
  lemma {:induction false} PutLookup(d: InfoDict, k: string, v: AmiInfo, k': string)
    ensures Lookup(Put(d, k, v), k') == if k' == k then Some(v) else Lookup(d, k')
  {
    if |d| > 0 && d[0].id != k {
      PutLookup(d[1..], k, v, k');
      assert Put(d, k, v)[1..] == Put(d[1..], k, v);
    } else if |d| > 0 {
      assert Put(d, k, v)[1..] == d[1..];
    }
  }

  /** The `ami_info` value built from one image; the name defaults to `Unknown`. */
  function Entry(image: Image, now: int): (e: AmiInfo)
    ensures image.name.Some? ==> e.name == image.name.value
    ensures image.name.None? ==> e.name == UnknownName
    ensures e.creationDate == image.creationDate
    ensures e.ageDays * SecondsPerDay <= now - image.creationDate < (e.ageDays + 1) * SecondsPerDay
  {
    AmiInfo(image.name.GetOr(UnknownName), image.creationDate, AgeDays(now, image.creationDate))
  }

  /** The image ids of a `describe_images` response, in response order. */
  function ImageIds(images: seq<Image>): seq<string>
  {
    MapSeq((x: Image) => x.imageId, images)
  }

  /** The dictionary the loop of `get_ami_info` fills from the images, one after another. */
  function InfoOf(images: seq<Image>, now: int): (d: InfoDict)
    ensures WellFormed(d)
    ensures |d| <= |images|
  {
    if |images| == 0 then []
    else
      var last := images[|images| - 1];
      var before := InfoOf(images[..|images| - 1], now);
      PutIds(before, last.imageId, Entry(last, now));
      Put(before, last.imageId, Entry(last, now))
  }

  /** The keys are the response's image ids, each once, in order of first appearance. */
  lemma {:induction false} InfoOfIds(images: seq<Image>, now: int)
    ensures Ids(InfoOf(images, now)) == Dedup(ImageIds(images))
    ensures WellFormed(InfoOf(images, now))
  {
    if |images| > 0 {
      var init, last := images[..|images| - 1], images[|images| - 1];
      InfoOfIds(init, now);
      PutIds(InfoOf(init, now), last.imageId, Entry(last, now));
      assert ImageIds(images)[..|images| - 1] == ImageIds(init);
    }
  }

  /** The position of the last image with id `k`, or -1 when there is none. */
  function LastIndex(images: seq<Image>, k: string): (r: int)
    ensures -1 <= r < |images|
    ensures r >= 0 ==> images[r].imageId == k
    ensures forall j :: r < j < |images| ==> images[j].imageId != k
  {
    if |images| == 0 then -1
    else if images[|images| - 1].imageId == k then |images| - 1
    else LastIndex(images[..|images| - 1], k)
  }

  /**
   * Every key is the `ImageId` of a returned image, every returned image's
   * id is a key, and the value is made from the LAST image with that id.
   */
  lemma {:induction false} InfoOfLookup(images: seq<Image>, now: int, k: string)
    ensures Lookup(InfoOf(images, now), k) ==
      if LastIndex(images, k) < 0 then None else Some(Entry(images[LastIndex(images, k)], now))
  {
    if |images| > 0 {
      var n := |images| - 1;
      var init, last := images[..n], images[n];
      InfoOfLookup(init, now, k);
      PutLookup(InfoOf(init, now), last.imageId, Entry(last, now), k);
      if last.imageId != k && LastIndex(init, k) >= 0 {
        assert images[LastIndex(init, k)] == init[LastIndex(init, k)];
      }
    }
  }

  /**
   * A key is present iff some returned image has that id; its name is that
   * image's `Name`, or `Unknown` when the record has none, and its age is
   * counted from `now`.
   */
  lemma InfoOfEntry(images: seq<Image>, now: int, k: string)
    ensures Lookup(InfoOf(images, now), k).Some? <==> exists i :: 0 <= i < |images| && images[i].imageId == k
    ensures Lookup(InfoOf(images, now), k).Some? ==>
      var image := images[LastIndex(images, k)];
      var v := Lookup(InfoOf(images, now), k).value;
      && image.imageId == k
      && v.name == (if image.name.Some? then image.name.value else UnknownName)
      && v.creationDate == image.creationDate
      && v.ageDays == AgeDays(now, image.creationDate)
  {
    InfoOfLookup(images, now, k);
  }

  /** What `get_ami_info` returns: no lookup for an empty id list, and an empty dictionary when the call raised. */
  function AmiInfoOf(amiIds: seq<string>, describe: seq<string> -> Option<seq<Image>>, now: int): (d: InfoDict)
    ensures WellFormed(d)
    ensures d != [] ==> amiIds != [] && describe(amiIds).Some?
    ensures forall x :: x in Ids(d) ==> x in ImageIds(describe(amiIds).value)
  {
    if amiIds != [] && describe(amiIds).Some? then
      InfoOfIds(describe(amiIds).value, now);
      InfoOf(describe(amiIds).value, now)
    else []
  }

  /** `get_ami_info`: the loop that fills `ami_info` from the `describe_images` response. */
  method GetAmiInfo(amiIds: seq<string>, describe: seq<string> -> Option<seq<Image>>, now: int)
    returns (info: InfoDict)
    ensures amiIds == [] ==> info == []
    ensures info == AmiInfoOf(amiIds, describe, now)
    ensures WellFormed(info)
  {
    info := [];
    if amiIds == [] {
      return;
    }
    var response := describe(amiIds);
    if response.None? {
      return;
    }
    var images := response.value;
    for i := 0 to |images|
      invariant info == InfoOf(images[..i], now)
    {
      var image := images[i];
      assert images[..i + 1][..i] == images[..i];
      info := Put(info, image.imageId, Entry(image, now));
    }
    assert images[..|images|] == images;
    InfoOfIds(images, now);
  }

  // ----- check_ami_rotation ------------------------------------------------

  /** The keys whose age is strictly above `rotationDays`, in dictionary order. */
  function Expired(d: InfoDict, rotationDays: int): (flagged: seq<string>)
    ensures |flagged| <= |d|
    ensures forall x :: x in flagged ==> x in Ids(d)
  {
    if |d| == 0 then []
    else
      var last := d[|d| - 1];
      Expired(d[..|d| - 1], rotationDays) + (if last.info.ageDays > rotationDays then [last.id] else [])
  }

  lemma {:induction false} ExpiredMember(d: InfoDict, rotationDays: int, x: string)
    ensures x in Expired(d, rotationDays) <==>
      exists i :: 0 <= i < |d| && d[i].id == x && d[i].info.ageDays > rotationDays
  {
    if |d| > 0 {
      var n := |d| - 1;
      ExpiredMember(d[..n], rotationDays, x);
      if x in Expired(d[..n], rotationDays) {
        var i :| 0 <= i < n && d[..n][i].id == x && d[..n][i].info.ageDays > rotationDays;
        assert d[i] == d[..n][i];
      }
      if exists i :: 0 <= i < |d| && d[i].id == x && d[i].info.ageDays > rotationDays {
        var i :| 0 <= i < |d| && d[i].id == x && d[i].info.ageDays > rotationDays;
        if i < n {
          assert d[..n][i] == d[i];
        }
      }
    }
  }

  /** An id is flagged iff it is a key and its age is strictly above the threshold; an age equal to it is not flagged. */
  lemma ExpiredIff(d: InfoDict, rotationDays: int, x: string)
    requires WellFormed(d)
    ensures x in Expired(d, rotationDays) <==>
      Lookup(d, x).Some? && Lookup(d, x).value.ageDays > rotationDays
  {
    ExpiredMember(d, rotationDays, x);
    if Lookup(d, x).Some? {
      var i :| 0 <= i < |d| && d[i] == Item(x, Lookup(d, x).value);
      LookupAt(d, i);
    }
    if x in Expired(d, rotationDays) {
      var i :| 0 <= i < |d| && d[i].id == x && d[i].info.ageDays > rotationDays;
      LookupAt(d, i);
    }
  }

  /** Raising the threshold never flags an id that a lower threshold did not. */
  lemma ExpiredMonotone(d: InfoDict, low: int, high: int, x: string)
    requires low <= high
    requires x in Expired(d, high)
    ensures x in Expired(d, low)
  {
    ExpiredMember(d, high, x);
    ExpiredMember(d, low, x);
  }

  /** Ids that are not keys are never flagged. */
  lemma ExpiredOnlyKeys(d: InfoDict, rotationDays: int, x: string)
    requires x !in Ids(d)
    ensures x !in Expired(d, rotationDays)
  {
    ExpiredMember(d, rotationDays, x);
  }

  /** `check_ami_rotation`: the loop over `ami_info.items()`. */
  method CheckAmiRotation(info: InfoDict, rotationDays: int) returns (oldAmis: seq<string>)
    ensures oldAmis == Expired(info, rotationDays)
    ensures forall x :: x in oldAmis <==>
      exists i :: 0 <= i < |info| && info[i].id == x && info[i].info.ageDays > rotationDays
  {
    oldAmis := [];
    for i := 0 to |info|
      invariant oldAmis == Expired(info[..i], rotationDays)
    {
      assert info[..i + 1][..i] == info[..i];
      if info[i].info.ageDays > rotationDays {
        oldAmis := oldAmis + [info[i].id];
      }
    }
    assert info[..|info|] == info;
    forall x | true
      ensures x in oldAmis <==>
        exists i :: 0 <= i < |info| && info[i].id == x && info[i].info.ageDays > rotationDays
    {
      ExpiredMember(info, rotationDays, x);
    }
  }

  // ----- main: the report --------------------------------------------------

  /** The AMI ids of the instances, one per instance. */
  function InstanceImageIds(instances: seq<Instance>): seq<string>
  {
    MapSeq((x: Instance) => x.imageId, instances)
  }

  /** `name[:29] if len(name) > 29 else name`. */
  function Truncate(name: string): (r: string)
    ensures |r| <= NameWidth
    ensures r <= name
    ensures |name| <= NameWidth ==> r == name
    ensures |name| > NameWidth ==> |r| == NameWidth
  {
    if |name| > NameWidth then name[..NameWidth] else name
  }

  /** One row of the AMI table: the id, then name, creation date and age, or `Unknown` in each. */
  datatype AmiRow =
    | KnownRow(id: string, name: string, creationDate: int, ageDays: int)
    | UnknownRow(id: string)

  function RowFor(id: string, info: InfoDict): (row: AmiRow)
    ensures row.id == id
    ensures row.UnknownRow? <==> id !in Ids(info)
  {
    match Lookup(info, id)
    case Some(v) => KnownRow(id, Truncate(v.name), v.creationDate, v.ageDays)
    case None => UnknownRow(id)
  }

  /** The AMI table: one row per id, in `sorted` order. */
  function AmiRows(amiIds: seq<string>, info: InfoDict): (rows: seq<AmiRow>)
    ensures |rows| == |amiIds|
    ensures forall row :: row in rows ==> row.id in amiIds
  {
    var sorted := Sort(amiIds);
    assert |sorted| == |multiset(sorted)| == |multiset(amiIds)| == |amiIds|;
    SortElements(amiIds);
    seq(|sorted|, i requires 0 <= i < |sorted| => RowFor(sorted[i], info))
  }

  function RowIds(rows: seq<AmiRow>): seq<string>
  {
    MapSeq((x: AmiRow) => x.id, rows)
  }

  /**
   * What a table row shows for its id: the name whole when it fits in 29
   * characters and its first 29 characters otherwise, the creation date and the age of the
   * entry, or `Unknown` when the id has no entry.
   */
  predicate RowShows(row: AmiRow, info: InfoDict)
  {
    match Lookup(info, row.id)
      case None => row.UnknownRow?
      case Some(v) =>
        row.KnownRow? && row.name <= v.name && |row.name| <= NameWidth
        && (|v.name| <= NameWidth ==> row.name == v.name)
        && (|v.name| > NameWidth ==> |row.name| == NameWidth)
        && row.creationDate == v.creationDate && row.ageDays == v.ageDays
  }

  /**
   * The AMI table of a duplicate-free id list: rows in strictly ascending id
   * order, one per id; a known id shows its name (its first 29 characters
   * when longer), its creation date and age; an id with
   * no entry shows `Unknown`.
   */
  lemma AmiRowsShape(amiIds: seq<string>, info: InfoDict)
    requires NoDups(amiIds)
    ensures StrictlyAscending(RowIds(AmiRows(amiIds, info)))
    ensures forall x :: x in RowIds(AmiRows(amiIds, info)) <==> x in amiIds
    ensures forall row :: row in AmiRows(amiIds, info) ==> RowShows(row, info)
  {
    var rows := AmiRows(amiIds, info);
    var sorted := Sort(amiIds);
    assert RowIds(rows) == sorted;
    SortStrict(amiIds);
    SortElements(amiIds);
  }

  /** An AMI the audit table shows as `Unknown` never appears in the rotation warning. */
  lemma UnknownRowsAreNeverFlagged(info: InfoDict, id: string)
    requires RowFor(id, info).UnknownRow?
    ensures id !in Expired(info, RotationDays)
  {
    ExpiredOnlyKeys(info, RotationDays, id);
  }

  /** One line of the rotation warning: the id, the full name and the age. */
  datatype WarningLine = WarningLine(id: string, name: string, ageDays: int)

  /** The closing section: the warning block, or the line saying every AMI is within policy. */
  datatype RotationSection = AllWithinPolicy | RotationWarning(lines: seq<WarningLine>)

  /** A warning line carries the full name and the age of its id's entry. */
  predicate LineShows(line: WarningLine, info: InfoDict)
  {
    && Lookup(info, line.id).Some?
    && line.name == Lookup(info, line.id).value.name
    && line.ageDays == Lookup(info, line.id).value.ageDays
  }

  function WarningIds(lines: seq<WarningLine>): seq<string>
  {
    MapSeq((x: WarningLine) => x.id, lines)
  }

  function WarningLines(oldAmis: seq<string>, info: InfoDict): (lines: seq<WarningLine>)
    requires forall x :: x in oldAmis ==> Lookup(info, x).Some?
    ensures WarningIds(lines) == oldAmis
    ensures forall line :: line in lines ==> LineShows(line, info)
  {
    seq(|oldAmis|, i requires 0 <= i < |oldAmis| =>
      var v := Lookup(info, oldAmis[i]).value;
      WarningLine(oldAmis[i], v.name, v.ageDays))
  }

  /** What `main` prints, without its layout. */
  datatype AuditReport =
    | NoInstances
    | Report(
        totalInstances: nat,
        uniqueAmis: nat,
        instances: seq<Instance>,
        amiRows: seq<AmiRow>,
        rotation: RotationSection)

  /**
   * `main`: an empty instance list ends the run; otherwise count the
   * instances and the distinct AMIs, build the AMI table in id order and
   * close with the rotation section for the 90-day threshold.
   */
  method AuditFleet(
    instancesResponse: Option<seq<Reservation>>,
    describe: seq<string> -> Option<seq<Image>>,
    now: int)
    returns (report: AuditReport)
    ensures report.NoInstances? <==> LiveInstances(instancesResponse) == []
    ensures report.Report? ==>
      var live := LiveInstances(instancesResponse);
      var info := AmiInfoOf(Dedup(InstanceImageIds(live)), describe, now);
      && report.instances == live
      && report.totalInstances == |live|
      && report.uniqueAmis == |Elements(InstanceImageIds(live))|
      && |report.amiRows| == report.uniqueAmis
      && StrictlyAscending(RowIds(report.amiRows))
      && (forall x :: x in RowIds(report.amiRows) <==> x in InstanceImageIds(live))
      && report.amiRows == AmiRows(Dedup(InstanceImageIds(live)), info)
      && (forall row :: row in report.amiRows ==> RowShows(row, info))
      && (report.rotation.AllWithinPolicy? <==>
            forall i :: 0 <= i < |info| ==> info[i].info.ageDays <= RotationDays)
      && (report.rotation.RotationWarning? ==>
            && WarningIds(report.rotation.lines) == Expired(info, RotationDays)
            && (forall x :: x in WarningIds(report.rotation.lines) <==>
                  Lookup(info, x).Some? && Lookup(info, x).value.ageDays > RotationDays)
            && (forall line :: line in report.rotation.lines ==> LineShows(line, info)))
  {
    var instances := GetEc2Instances(instancesResponse);
    if |instances| == 0 {
      return NoInstances;
    }
    var amiIds := Dedup(InstanceImageIds(instances));
    var info := GetAmiInfo(amiIds, describe, now);
    var rows := AmiRows(amiIds, info);
    AmiRowsShape(amiIds, info);
    DedupCardinality(InstanceImageIds(instances));
    var oldAmis := CheckAmiRotation(info, RotationDays);
    forall i | 0 <= i < |info|
      ensures info[i].id in oldAmis || info[i].info.ageDays <= RotationDays
    {
    }
    var rotation: RotationSection;
    if |oldAmis| == 0 {
      rotation := AllWithinPolicy;
    } else {
      assert oldAmis[0] in oldAmis;
      forall x
        ensures x in oldAmis <==> Lookup(info, x).Some? && Lookup(info, x).value.ageDays > RotationDays
      {
        ExpiredIff(info, RotationDays, x);
      }
      var lines := WarningLines(oldAmis, info);
      rotation := RotationWarning(lines);
    }
    report := Report(|instances|, |amiIds|, instances, rows, rotation);
  }
}
