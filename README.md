# EC2 AMI audit and latest-AMI lookup, modelled in Dafny

The repository holds two command-line scripts around the EC2 API.

- `check_ami.py` is the fleet audit. It lists the instances of a region
  that are not terminated. It collects the distinct AMI ids they run and
  looks up each AMI's name, creation date and age in days. It prints an
  instance table, an AMI table sorted by id, and a rotation section that
  warns about every AMI older than 90 days.
- `latest_ami.py` is the latest-image lookup. It asks EC2 for the images
  matching a name pattern and an owner, and picks the newest one. It prints
  that image's fields, tags and EBS volumes, then a verdict against the same
  90-day rule.

The model keeps the record-reshaping logic of both scripts and drops the
SDK, the argument parsing and the printing. The EC2 responses are inputs.
`describe_instances` is an `Option` of reservations, with `None` standing
for a call that raised. `describe_images` is a function from the ids asked
for to an `Option` of images in the audit, and an `Option` of images in the
lookup. Creation dates and the current time are whole seconds since the
epoch, and "now" is a parameter.

Files and modules:

- `optional.dfy` (`Optional`): `Option` with `GetOr`, standing for `dict.get(key, default)`.
- `sequences.dfy` (`Sequences`): duplicate-freedom, and `Dedup`, which stands for `list(set(...))`.
- `timestamps.dfy` (`Timestamps`): age in whole days, the 90-day constant, and the `'Z'` to `'+00:00'` rewrite.
- `string_order.dfy` (`StringOrder`): Python's ordering of strings, and `sorted` as an insertion sort.
- `decimal.dfy` (`Decimal`): how an f-string renders an `int`, and how to read it back.
- `check_ami.dfy` (`CheckAmi`): the audit script. `get_ec2_instances`,
  `get_ami_info` and `check_ami_rotation` are methods with loops, proved
  against specification functions. `main` is the method `AuditFleet`.
- `latest_ami.dfy` (`LatestAmi`): the lookup script, written as functions and lemmas.
- `rotation_policy.dfy` (`RotationPolicy`): both scripts write the 90-day
  rule out separately; this lemma shows they make the same decision.

Decisions in the model:

- The `ami_info` dictionary is a sequence of `(id, info)` items in insertion
  order, which is the order Python iterates it in. Assigning to an existing
  key replaces its value in place, and a new key goes last. This keeps the
  order of the rotation warning.
- `list(set(ids))` has no defined order in Python. The model fixes it to the
  first occurrence of each id. That order reaches `describe`, which receives
  the id list as it is. The AMI table sorts the list, so its rows do not
  depend on the order. The order of `ami_info` follows the order of the
  `describe_images` response, not the order of the ids asked for.
- When no image matches, the script prints four possible reasons (`NotFoundLines`).

## Model

| member | source | states |
|---|---|---|
| `Timestamps.AgeDays` | check_ami.py:59 | The age `d` is the floor of the second difference over 86400: `d*86400 <= now - creation < (d+1)*86400`. It is `>= 0` exactly when creation is not after now. |
| `Timestamps.AgeDaysMonotone` | check_ami.py:59 | A later "now" never gives a smaller age, so repeated runs report non-decreasing ages. |
| `Timestamps.AgeDaysShift` | latest_ami.py:63 | One more day of elapsed time adds exactly one to the age. |
| `Timestamps.ReplaceZ` | latest_ami.py:52 | The rewritten date contains no `Z`. A date without `Z` is unchanged. |
| `Timestamps.ReplaceZConcat` | latest_ami.py:62 | The rewrite works character by character: it distributes over concatenation. |
| `Timestamps.ReplaceZSingle` | latest_ami.py:62 | `Z` becomes `+00:00` and every other character stays as it is. |
| `Timestamps.ReplaceTrailingZ` | check_ami.py:53 | A date ending in `Z` (and with no other `Z`) ends in `+00:00` after the rewrite, with the rest unchanged. |
| `Sequences.Dedup` | check_ami.py:91 | The AMI id list has no duplicates and has the same elements as the instances' image ids. |
| `Sequences.DedupCardinality` | check_ami.py:96 | The "Unique AMIs in use" count equals the number of distinct image ids. |
| `Sequences.NoDupsCardinality` | check_ami.py:96 | A duplicate-free list has as many distinct elements as entries. |
| `Sequences.DedupOfNoDups` | check_ami.py:91 | Deduplicating a duplicate-free list returns it unchanged. |
| `StringOrder.Less` | check_ami.py:116 | Python's `<` on strings: lexicographic order, so a proper prefix comes first. It is never true of equal strings, and it contains Dafny's prefix order. |
| `StringOrder.LessTotal` | check_ami.py:116 | Two different ids are always ordered one way or the other by Python's string comparison. |
| `StringOrder.LessTransitive` | check_ami.py:116 | Python's string comparison is transitive. |
| `StringOrder.Sort` | check_ami.py:116 | `sorted` returns an ascending permutation of its input. |
| `StringOrder.SortStrict` | check_ami.py:116 | Sorting a duplicate-free id list gives a strictly ascending list. |
| `StringOrder.AscendingNoDupsIsStrict` | check_ami.py:116 | An ascending list without repeats is strictly ascending between any two positions. |
| `Decimal.IntToText` | latest_ami.py:88 | The f-string rendering of an integer is never empty. It starts with `-` iff the number is negative, and is all digits otherwise. |
| `Decimal.ParseInt` | latest_ami.py:88 | Reading a decimal integer: when it succeeds, the text is non-empty and the number is negative iff the text starts with `-`. |
| `Decimal.NatRoundTrip` | latest_ami.py:88 | Reading back the decimal digits of a natural number gives that number. |
| `Decimal.IntRoundTrip` | latest_ami.py:88 | Reading back how an f-string renders an integer gives that integer. |
| `Decimal.IntToTextInjective` | latest_ami.py:88 | Different volume sizes are rendered differently. |
| `Decimal.NotAvailableIsNotANumber` | latest_ami.py:88 | The `N/A` fallback can never be mistaken for a rendered size. |
| `CheckAmi.Flatten` | check_ami.py:30-31 | The two loops visit exactly the instances of all reservations. |
| `CheckAmi.Running` | check_ami.py:32-33 | Every instance kept is an input instance whose state is not `terminated`. |
| `CheckAmi.RunningMember` | check_ami.py:30-33 | An instance is kept iff it is in the input and its state is not `terminated`. |
| `CheckAmi.RunningConcat` | check_ami.py:30-33 | The filter keeps input order: filtering a concatenation concatenates the results. |
| `CheckAmi.RunningIdempotent` | check_ami.py:30-33 | Filtering an already filtered list changes nothing. |
| `CheckAmi.LiveInstances` | check_ami.py:26-38 | A failed call gives `[]`. Every instance returned has a state other than `terminated`. |
| `CheckAmi.GetEc2Instances` | check_ami.py:23-38 | The nested loop returns the non-terminated instances in reservation-then-instance order, and `[]` when the call raised. Membership holds in both directions. |
| `CheckAmi.Lookup` | check_ami.py:117 | `ami_id in ami_info` holds iff the id is a key, and the value found is stored under that key. |
| `CheckAmi.LookupAt` | check_ami.py:118 | In a dictionary without repeated keys, looking up an item's id returns that item's value. |
| `CheckAmi.Put` | check_ami.py:55 | Assigning to an existing key keeps the dictionary's size. A new key adds one entry. |
| `CheckAmi.PutIds` | check_ami.py:55-60 | `ami_info[ami_id] = ...` appends a new key at the end and leaves the key order alone for an existing key. |
| `CheckAmi.PutLookup` | check_ami.py:55-60 | After the assignment the id maps to the new value, and every other key maps to its old value. |
| `CheckAmi.Entry` | check_ami.py:55-59 | The entry's name is the image's `Name`, or `Unknown` when absent. It keeps the creation date. Its age is the floor of the elapsed seconds over 86400. |
| `CheckAmi.InfoOf` | check_ami.py:51-60 | The loop over the response builds a dictionary without repeated keys and with at most one entry per image. |
| `CheckAmi.InfoOfIds` | check_ami.py:51-60 | The keys of `ami_info` are the returned images' ids, each once, in order of first appearance. |
| `CheckAmi.InfoOfLookup` | check_ami.py:51-60 | An id is a key iff some returned image has it. Its value is built from the last such image. |
| `CheckAmi.InfoOfEntry` | check_ami.py:51-60 | A key's name is the image's `Name`, or `Unknown` when absent. Its age is `AgeDays(now, creation)`. |
| `CheckAmi.AmiInfoOf` | check_ami.py:45-65 | The result has no repeated key. It is empty unless the id list is non-empty and the call succeeded. Every key is the id of a returned image. |
| `CheckAmi.GetAmiInfo` | check_ami.py:41-65 | An empty id list gives an empty map without calling `describe`. A failed call gives an empty map. Otherwise the loop builds the map from the response. The result never repeats a key. |
| `CheckAmi.Expired` | check_ami.py:68-75 | The result has at most one id per dictionary entry, and every id in it is a key. |
| `CheckAmi.ExpiredMember` | check_ami.py:71-73 | An id is flagged iff some item has that id and an age strictly above the threshold. |
| `CheckAmi.ExpiredIff` | check_ami.py:71-73 | In a well-formed map, an id is flagged iff it is a key and its age is strictly greater than `rotation_days`. An age equal to the threshold is not flagged. |
| `CheckAmi.ExpiredMonotone` | check_ami.py:68-75 | Raising the threshold never adds ids to the result. |
| `CheckAmi.ExpiredOnlyKeys` | check_ami.py:71-73 | Ids absent from the map are never returned. |
| `CheckAmi.CheckAmiRotation` | check_ami.py:68-75 | The loop returns exactly the keys whose age exceeds the threshold, in dictionary order. |
| `CheckAmi.Truncate` | check_ami.py:119 | The shown name is a prefix of the name and at most 29 characters long. It equals the name when the name fits, and is exactly 29 characters long otherwise. |
| `CheckAmi.RowFor` | check_ami.py:117-124 | A row carries its AMI id. It is the `Unknown` row iff the id is not a key of `ami_info`. |
| `CheckAmi.AmiRows` | check_ami.py:116-124 | The table has one row per AMI id, and every row's id is one of those ids. |
| `CheckAmi.AmiRowsShape` | check_ami.py:116-124 | For duplicate-free ids, the rows come in strictly ascending id order and cover exactly those ids. A known id shows its whole name when it fits in 29 characters and exactly its first 29 characters otherwise, with its creation date and its age. An id missing from the map shows an `Unknown` row. |
| `CheckAmi.UnknownRowsAreNeverFlagged` | check_ami.py:123-124 | An AMI shown as `Unknown` never appears in the rotation warning. |
| `CheckAmi.WarningLines` | check_ami.py:131-134 | There is one warning line per old AMI, in the order `check_ami_rotation` returned them. Each line shows that AMI's name and age from `ami_info`. |
| `CheckAmi.AuditFleet` | check_ami.py:85-136 | With no live instances the report is the "no instances" outcome. Otherwise it gives the live instances, their count and the number of distinct AMIs. The AMI table is the sorted rows of those AMIs looked up in `ami_info`. Each row shows the looked-up name, date and age, or `Unknown`. The rotation section is "all within policy" iff no AMI is older than 90 days. Otherwise the warning lists the `check_ami_rotation` result in dictionary order, and each line shows that AMI's name and age. |
| `LatestAmi.LatestIndex` | latest_ami.py:51-52 | `max` with a key picks an image whose creation date is at least every other one. Every image before it is strictly older, so the first of several latest images wins. |
| `LatestAmi.LatestIndexUnique` | latest_ami.py:51-52 | The two properties above determine the chosen position. |
| `LatestAmi.GetLatestAmi` | latest_ami.py:28-58 | The result is `None` iff the call raised or returned no images. Otherwise it is an element of the list, no older than any other, and strictly newer than every element before it. |
| `LatestAmi.LatestOfTwo` | latest_ami.py:51-52 | Of two images created at T1 < T2, the one created at T2 is selected, whatever their order. |
| `LatestAmi.LatestTieKeepsFirst` | latest_ami.py:51-52 | When an image ties with a later one for the latest date, the selected position is not after the first of them. |
| `LatestAmi.HeaderLines` | latest_ami.py:62-76 | The description line shows `Description`, or `N/A` when absent. The age line uses the floored day age. No field line is a section heading. |
| `LatestAmi.TagLines` | latest_ami.py:78-81 | The tags block is non-empty iff `Tags` is present and non-empty. It is then the heading followed by one line per tag, in input order. |
| `LatestAmi.SizeText` | latest_ami.py:88 | The size reads back as `VolumeSize` when present, and is `N/A` otherwise. |
| `LatestAmi.EbsLine` | latest_ami.py:86-90 | The device line keeps the device name. Its size and type fall back to `N/A`. Its label is `Encrypted` iff `Encrypted` is present and true, and `Not Encrypted` otherwise. |
| `LatestAmi.DeviceLines` | latest_ami.py:84-90 | There is never more than one line per mapping, and every line is a device line. |
| `LatestAmi.DeviceLinesConcat` | latest_ami.py:84-90 | Device lines keep mapping order: the lines of a concatenation are the concatenated lines. |
| `LatestAmi.DeviceLinesSingle` | latest_ami.py:85-90 | A single mapping yields its line iff it has `Ebs`. |
| `LatestAmi.EbsMappings` | latest_ami.py:86 | The mappings kept are exactly the input mappings that have `Ebs`. |
| `LatestAmi.DeviceLinesFollowEbsMappings` | latest_ami.py:84-90 | The i-th device line is the line of the i-th mapping that has `Ebs`. Mappings without `Ebs` are skipped. |
| `LatestAmi.FormatAmiInfo` | latest_ami.py:61-90 | The report shows the description with its `N/A` default and the floored age. It has a tags heading iff the image has non-empty tags. The device heading comes right before the device lines, and nothing follows them. |
| `LatestAmi.VerdictFor` | latest_ami.py:109-113 | The warning verdict is chosen iff the age is strictly above 90 days, and it carries that age. |
| `LatestAmi.VerdictStaysTooOld` | latest_ami.py:106-113 | Once an image is too old, it stays too old at any later time. |
| `LatestAmi.LatestAmiReport` | latest_ami.py:93-121 | The report is "not found", with its message lines, iff the call raised or matched nothing. Otherwise it details the selected image, and its verdict is the one for that image's age, which warns iff the age exceeds 90 days. No other image is younger than the selected one. |
| `RotationPolicy.AuditAgreesWithLookup` | latest_ami.py:109 | For the same age, the audit flags an AMI iff the lookup would warn about it: both scripts apply the same 90-day rule. |

## Left out

- The boto3 client and the `describe_instances` and `describe_images` calls are network I/O. Their responses are inputs. `None` stands for a call that raised, and the `except` branches become the empty and `None` results.
- The server-side filters of the lookup are left out: the name glob, `state = available` and the owner. EC2 applies them, and the response is taken as already filtered.
- Argument parsing, `print`, column padding, the `=`/`-` rules, the emoji and `strftime` output are left out. The instance table appears as the list of instances, and the creation date as seconds.
- `datetime.fromisoformat` and `datetime.now` are left out. Creation dates are integer seconds and "now" is a parameter, so sub-second parts of a date are not modelled. Parsing is assumed to succeed, so a malformed `CreationDate` that raises inside the loop of `get_ami_info` (keeping a partial map) or inside `max` is not modelled.
- Each script reads the clock more than once: per image in `get_ami_info`, and twice in `latest_ami.py`. The model uses a single `now` per run, so ages cannot differ by a clock tick between those reads.
- A `KeyError` from a missing required field (`ImageId`, `Name`, `DeviceName`, `State`, and the rest) is not modelled. Those fields are always present in the records.
- The records keep only the fields the scripts read.
- `Sequences.Dedup`: the order of `list(set(...))` is unspecified in Python. The model fixes first-occurrence order. That order is the id list passed to `describe`. The AMI table and the distinct-AMI count do not depend on it.
