# geolocate-ips: a Dafny model of the aggregation core

`Script/geolocate.py` looks up a list of IP addresses in a GeoLite2-City database,
drops excluded addresses, keeps the records a search pattern accepts, groups the kept
addresses by address, country, state/region or city, sorts the groups and prints them.
This project models the part of the script that runs between the lookup and the
printing, and proves what it does:

- `read_record`: how one lookup ends (`GeoRecords.ReadRecord`).
- The `get_records` loop: exclusion, lookup, the unknown list, name normalisation,
  the search over four strings, key composition and the five-line detail block
  (`Aggregate.Classify`, `Aggregate.GetRecords`).
- The `--limit` handling in `main` (`Input`).
- The final `sorted(..., reverse=True)` (`GroupOrder`).
- `main` stripped of its I/O (`Geolocate.Run`).

The database reader is a parameter, a total function from an address to a
`ReaderResult`. The compiled `--search` expression is a parameter too, a predicate on
strings. The `defaultdict(list)` that `get_records` fills is a sequence of
`Group(key, values)` pairs with distinct keys, kept in insertion order (`Multimap`).
That is how the `dict` built from it iterates.

Layout: `common.dfy` (Option, Result), `decimal.dfy` (`str()` of the radius),
`text_order.dfy` (Python's `<` on `str`), `multimap.dfy`, `geo_records.dfy`,
`aggregate.dfy` (the loop and its per-address description), `aggregate_facts.dfy` (where
each address ends up), `group_order.dfy` (the sort), `input.dfy`, `geolocate.dfy`.

Behaviour of the code worth knowing:

- In `ip_address` mode the sort key is element 2 of a group, `x[1][2]`. That element is
  the `Country:` line of the first detail block. Groups are ordered by that string,
  descending (`AggregateFacts.AddressModeGroupShape`, `GroupOrder.KeyOf`).
- With no search pattern, `get_records` puts every address that is neither excluded nor
  fatal into exactly one of two places: a group or the unknown list
  (`AggregateFacts.AttributeModePartition`, `AggregateFacts.AddressModePartition`). With
  a pattern, a found address the pattern rejects goes to neither
  (`AggregateFacts.DiscardedNowhere`).
- An excluded address is never in the unknown list and never a group key in
  `ip_address` mode. Exclusion entries are arbitrary strings, so one can equal a
  detail line in `ip_address` mode or a place-name key such as `Unknown` in the
  attribute modes. In the attribute modes the guarantee is that the excluded address is
  among no group's addresses (`AggregateFacts.ExcludedAbsent`).
- `--ip ""` is falsy, so `main` takes the file branch with no file and fails there. This
  is modelled as `InputFailure(NoSource)`.

## Model

| member | source | states |
|---|---|---|
| GeoRecords.ReadRecord | Script/geolocate.py:105-113 | A found record is passed through unchanged. An address-not-found error and an invalid address (ValueError) both become NotFound, and nothing else does. Every other reader failure comes out as Fatal and is never absorbed. The error carried is the reader's own, as the re-raise at line 111 intends; the code as written carries a different one (see Findings). |
| GeoRecords.ReadRecordAsWritten | Script/geolocate.py:105-113 | As written, read_record decides NotFound, Found and Fatal exactly as ReadRecord does, but a fatal outcome carries the AttributeError raised while evaluating the second except clause, with the reader's error only as its context. |
| GeoRecords.AsWrittenReplacesError | Script/geolocate.py:110-111 | For every reader error, the code as written still aborts, but reports an error different from the reader's. |
| GeoRecords.IsoSuffixRoundTrip | Script/geolocate.py:134-135 | The country suffix is empty exactly when the ISO code is missing. The code can be read back from the suffix, so two different codes never produce the same suffix. |
| GeoRecords.Normalise | Script/geolocate.py:130-135 | A missing city, state or country name becomes exactly "Unknown", and a present name is kept as is. The suffix is empty exactly when the ISO code is missing, and otherwise encodes exactly the record's ISO code. |
| GeoRecords.RadiusText | Script/geolocate.py:165 | The radius text is "Null" exactly when the record has no accuracy radius. A present radius renders as decimal digits whose value is the radius, with no leading zero except for "0" itself. |
| GeoRecords.DetailBlock | Script/geolocate.py:156-173 | The detail block has five lines, and each starts with its twelve-character label, in the order Maps URL, Radius(km), Country, State, City. |
| GeoRecords.DetailBlockLayout | Script/geolocate.py:167-173 | Stripping each line's label gives back the field it reports. The Maps URL reads "Null" when the coordinates are absent. Element 2 carries country_full. |
| Decimal.NatToDecimal | Script/geolocate.py:169 | The radius is rendered as non-empty decimal digits with no leading zero, except for "0" itself. |
| Decimal.DecimalRoundTrip | Script/geolocate.py:169 | Reading the rendered radius back as a decimal number gives the radius. |
| TextOrder.StrLess | Script/geolocate.py:218 | Python's `<` on strings: a proper prefix comes before the longer string. |
| TextOrder.StrLessFirstDifference | Script/geolocate.py:218 | Past a common prefix, the first differing code point decides which string is smaller. |
| TextOrder.StrLessTransitive | Script/geolocate.py:217-218 | The string comparison used by the ip_address-mode sort is transitive. |
| TextOrder.StrLessTotal | Script/geolocate.py:217-218 | Any two different strings are ordered one way or the other by that comparison. |
| Multimap.Insert | Script/geolocate.py:151-155 | `d[k].append(...)` on a defaultdict adds an entry exactly when k is new, and otherwise keeps the number of entries. |
| Multimap.InsertKeys | Script/geolocate.py:151 | Appending under an existing key keeps the key order unchanged. A new key goes last in insertion order, as with a defaultdict. |
| Multimap.InsertDistinct | Script/geolocate.py:151 | Appending under a key keeps every key held once. |
| Multimap.InsertGet | Script/geolocate.py:167 | After appending or extending, the key reads as its old lines followed by the new ones. Every other key reads as before. |
| Multimap.InsertSize | Script/geolocate.py:167 | Appending or extending grows the total line count by exactly the number of lines added. |
| Multimap.FromPairsDistinct | Script/geolocate.py:117 | The result of merging is a dictionary: every key is held once. |
| Multimap.FromPairsKeys | Script/geolocate.py:150-155 | Adding (key, lines) pairs one at a time yields each key once, in order of first appearance. |
| Multimap.FromPairsGet | Script/geolocate.py:150-173 | After adding the pairs one at a time, each key holds exactly the lines of its own pairs, in input order. |
| Multimap.FromPairsSize | Script/geolocate.py:150-173 | The sum of the group lengths equals the number of lines contributed. |
| Multimap.SameEntriesSameGet | Script/geolocate.py:217 | Rebuilding the dict from the sorted items leaves every key's lines unchanged. |
| Aggregate.Accepts | Script/geolocate.py:137-148 | With no pattern every record is kept. With a pattern, a record is kept exactly when the pattern matches one of country_full, the state, the city or the address; state and city are searched without the ISO suffix. |
| Aggregate.Entry | Script/geolocate.py:150-173 | In ip_address mode the key is the address and the lines are the five-line block, whose element 2 is the Country line. In the other modes the address is the only value. The country key is country_full. The state/region key is exactly the state followed by the ISO suffix, and the city key exactly the city followed by the ISO suffix; each is pinned by its prefix, its suffix and its length. |
| Aggregate.Classify | Script/geolocate.py:120-175 | Exclusion is decided before the lookup. A not-found or invalid address is unresolved, and a fatal reader error aborts with the error the corrected read_record reports. A found record is kept exactly when the search accepts it, and is otherwise discarded. A kept record contributes the entry of the selected mode. |
| Aggregate.AttributeValues | Script/geolocate.py:150-155 | In the country, state/region and city modes, a kept address contributes itself as its only value. |
| Aggregate.AddressKey | Script/geolocate.py:167-173 | In ip_address mode, a kept address is its own key and contributes exactly five lines. |
| Aggregate.GetRecords | Script/geolocate.py:116-177 | The loop returns exactly the reference outcome `Expected`. That is the error of the first address whose lookup is fatal, with no partial result. Otherwise it is the kept addresses' contributions merged by key, plus the unresolved addresses in input order. |
| Aggregate.FirstAbortMeaning | Script/geolocate.py:120-127 | A fatal error is reported exactly when some address that is not excluded has a fatal lookup. The error reported belongs to an address that every earlier address let through. |
| AggregateFacts.UnresolvedWithout | Script/geolocate.py:120-122 | Excluding addresses leaves the unknown list as if they had been deleted from the input. |
| AggregateFacts.ContributionsWithout | Script/geolocate.py:120-122 | Excluding addresses leaves every group contribution as if they had been deleted from the input. |
| AggregateFacts.NoAbortWithout | Script/geolocate.py:120-127 | An excluded address is never looked up, so even a fatal lookup for it cannot end the run. |
| AggregateFacts.ExcludedAbsent | Script/geolocate.py:120-122 | An excluded address is never in the unknown list. In ip_address mode it is never a group key. In the attribute modes it is in no group's values. |
| AggregateFacts.UnresolvedCounts | Script/geolocate.py:174-175 | An address that is not excluded and whose lookup is not-found or invalid appears in the unknown list as often as in the input. Every other address never appears there, whether it was found or excluded. |
| AggregateFacts.AttributeModeGroups | Script/geolocate.py:150-155 | In the attribute modes, the group under a key lists exactly the kept addresses with that key, once per occurrence and in input order. |
| AggregateFacts.AttributeModeTotal | Script/geolocate.py:150-155 | In the attribute modes, the sum of the group lengths equals the number of kept addresses. |
| AggregateFacts.AddressModeGroups | Script/geolocate.py:156-173 | In ip_address mode, an address's group is its detail block repeated once per occurrence, so a repeated address gets 10 lines. The total line count is five per kept address. |
| AggregateFacts.GroupKeyOrigin | Script/geolocate.py:167 | Every ip_address-mode group key is an input address that was kept. |
| AggregateFacts.AddressModeGroupSize | Script/geolocate.py:167-173 | Every ip_address-mode group has 5 lines per occurrence of its address, and at least one occurrence. |
| AggregateFacts.KeptUnderMember | Script/geolocate.py:150-155 | An address is among the kept addresses under a key exactly when it occurs in the input, is kept, and has that key. |
| AggregateFacts.AttributeModeMembership | Script/geolocate.py:150-155 | In the attribute modes an address is listed in some group exactly when it occurs in the input and is kept. |
| AggregateFacts.AddressModeMembership | Script/geolocate.py:156-173 | In ip_address mode an address is a group key exactly when it occurs in the input and is kept. |
| AggregateFacts.AttributeModePartition | Script/geolocate.py:120-175 | With no pattern, in the attribute modes, an address that is neither excluded nor fatal is in the unknown list exactly when it is in no group. |
| AggregateFacts.AddressModePartition | Script/geolocate.py:120-175 | With no pattern, in ip_address mode, an address that is neither excluded nor fatal is in the unknown list exactly when it is not a group key. |
| AggregateFacts.DiscardedNowhere | Script/geolocate.py:137-148 | A found address the pattern rejects is neither in the unknown list nor in any group. |
| AggregateFacts.AddressModeGroupShape | Script/geolocate.py:167-172 | Every ip_address-mode group belongs to a found address and starts with that address's detail block. Its element 2, the one the sort reads, is the "Country:" line. |
| GroupOrder.SortGroups | Script/geolocate.py:217-218 | The sort keeps element 2 readable in every ip_address-mode group, so the key can always be taken. |
| GroupOrder.SortGroupsPermutes | Script/geolocate.py:217-218 | The sorted groups are a permutation of the input groups. |
| GroupOrder.SortGroupsSorted | Script/geolocate.py:217-218 | No group is followed by one with a larger key. The key is the group length in the attribute modes and element 2 in ip_address mode. |
| GroupOrder.SortGroupsStable | Script/geolocate.py:217-218 | Groups with equal keys keep their relative order. |
| GroupOrder.SortGroupsDistinct | Script/geolocate.py:217 | Sorting the dict's items keeps every key held once. |
| Input.Truncate | Script/geolocate.py:198-207 | The result is a prefix of the matches. With a limit below 1 it is all of them, otherwise min(limit, number of matches) of them. |
| Input.TruncateProperties | Script/geolocate.py:198-207 | A limit of 0 means unbounded: nothing is dropped. For limits of 1 or more: truncation drops nothing exactly when the limit is at least the number of matches, and a larger limit gives the same matches or more, as a longer prefix. |
| Input.Candidates | Script/geolocate.py:191-207 | --ip gives that one address, with no limit applied. --file gives the matches cut to the limit. An empty --ip fails. |
| Geolocate.Run | Script/geolocate.py:209-218 | A database that cannot be opened, or a fatal lookup that is reached, ends the run with that error and no report. The error is the open error or that of the first fatal lookup. Otherwise the report is a stable descending sort of the merged groups, with each key once and each key holding exactly its collected lines. The unknown list is the unresolved addresses in input order. |

## Left out

- Argument parsing, `--version` and the mutual exclusion of `--ip` and `--file` (Script/geolocate.py:28-102) are argparse behaviour. The model takes the parsed values as parameters: `Config`, `Source` and `limit`.
- The file checks and the file reading (Script/geolocate.py:194-197, 203-204) are filesystem I/O, and their usage errors are not modelled.
- The IPv4 extraction `re.findall` (Script/geolocate.py:206-207) is library behaviour. Its output is the `FileMatches` sequence.
- The compiled search expression (Script/geolocate.py:188) is library behaviour. It is the abstract `Pattern` predicate, and case-insensitivity lives inside it.
- The geoip2 reader (Script/geolocate.py:107, 210) is a foreign library. Opening it is the `Database` parameter and a lookup is the `Reader` function. Reader exceptions other than AddressNotFoundError and ValueError are modelled as `Raised`. What the second except clause does with them is under Findings.
- The Maps URL float formatting and the latitude/longitude truthiness test (Script/geolocate.py:157-163) are floating point. The record carries the URL as an opaque optional string, absent when a coordinate is missing or zero.
- Aggregate.Classify, Aggregate.GetRecords and Geolocate.Run report, for a fatal lookup, the reader's own error, as the corrected `GeoRecords.ReadRecord` gives it. The code as written reports the AttributeError of `GeoRecords.ReadRecordAsWritten` instead (see Findings). Which lookups abort, and that nothing else is returned, is the same either way.
- Printing is stdout I/O: the groups, the "No records found" line, the `--show-missing` section and the `ERROR:` line (Script/geolocate.py:212-214, 220-230). The same goes for the exit status, which is 2 for `ErrorExit`.
- `GroupOrder.KeyLess` also orders a length against a string, which Python would refuse with a TypeError. One run never compares the two kinds, so this only makes the order total.
- A geoip2 City record is always truthy, so `if record:` (Script/geolocate.py:129) is modelled as "the lookup found a record".

## Findings

| source | as written | input that shows it | evidently intended | confidence | as-written member | corrected member |
|---|---|---|---|---|---|---|
| Script/geolocate.py:110-111 | The second except clause names `geoip2.errors.FileNotFoundError` and `geoip2.errors.PermissionError`. The geoip2 errors module defines neither, and Python looks the names up only when an exception has passed the first clause. So every such exception is replaced by an AttributeError about `FileNotFoundError`, which is what main prints at line 213. | Any reader exception other than AddressNotFoundError and ValueError, for example a TypeError from `city()` on a database that is not a City database. | The reader's own exception propagates, and main prints it. The run ends with status 2 either way. | medium, not executed; rests on the contents of geoip2's errors module, which is not part of this model | GeoRecords.ReadRecordAsWritten, GeoRecords.AsWrittenReplacesError | GeoRecords.ReadRecord |
