# Flow log parser, modelled in Dafny

`flow_log_parser.py` tags AWS VPC flow-log records. It has two stages.

1. It loads a CSV lookup table that maps a (destination port, protocol name) pair to a tag.
2. It makes one pass over the flow log and builds two counters:
   - how many records fall under each tag, with records the table does not know counted under `"Untagged"`;
   - how many records there are of each (port, protocol) pair.

This project models both stages and the constants they use:

- `PROTOCOL_MAP`, the IANA numbers 1, 6 and 17;
- `NUM_FIELDS`, the fourteen fields of a version 2 record.

It also proves what the two stages promise.

Modules:

- `Wrappers`: the `Option` and `Result` types.
- `Text`: Python's `str.strip()`, `str.split()` and `int(str)` as pure functions, with their round trips.
  - `Split(Join(fs)) == fs`.
  - `int(str(n)) == n`.
- `Counters`: the part of `collections.Counter` the parser uses.
  - A missing key reads as 0.
  - `c[k] += 1` inserts or increments.
  - `sum(c.values())` adds up the counts.
  - `Counter(s)` counts the occurrences of each element, as a multiset does.
- `LookupTable`: `load_lookup_table`.
  - A `while` loop over the rows.
  - It is proved equal to a left fold `TableOf` over the data rows.
- `FlowLogs`: `parse_flow_logs`.
  - A `while` loop over the lines keeps three counters: tags, (port, protocol) pairs and the untagged count.
  - It is proved equal to a left fold `Scan`.
  - Further lemmas relate the result to independent definitions: the record keys of the log, the tags the table gives them, and the keys it does not know.

The two functions of the source only update local dictionaries and counters, so they become methods with local `map` variables. There are no classes. The files arrive already read:

- the lookup file as rows of fields, as `csv.reader` produces them;
- the flow log as its sequence of lines.

## Model

| member | source | states |
|---|---|---|
| LookupTable.LoadLookupTable | flow_log_parser.py:17-45 | The loop returns `Load(source)`: an error exactly when the source has no rows (no header to skip), otherwise the table built from the rows after the first |
| LookupTable.Load | flow_log_parser.py:33 | Fails exactly on an empty source (the header read raises and is re-raised); a header-only source gives an empty table |
| LookupTable.HeaderNotValidated | flow_log_parser.py:33 | The first row is discarded unread: any header gives the same table |
| LookupTable.TableKeys | flow_log_parser.py:35-37 | A key is in the table exactly when some three-field row carries it (after stripping) |
| LookupTable.LastWriteWins | flow_log_parser.py:37 | For duplicate keys the tag of the last three-field row with that key is stored |
| LookupTable.MalformedRowIgnored | flow_log_parser.py:35 | A row with other than three fields can be removed from anywhere without changing the table |
| LookupTable.TableTrimmed | flow_log_parser.py:37 | Stored ports, protocols and tags carry no surrounding whitespace |
| LookupTable.MalformedRowsExample | test_flow_log_parser.py:146-162 | The rows `invalid_line`, `443,tcp,secure-web,extra_field` and `,,,` are skipped; only the 80/tcp and 53/udp entries are stored |
| FlowLogs.ProtocolName | flow_log_parser.py:7-11 | 1 is icmp, 6 is tcp, 17 is udp, and every other integer is "Unknown", each in both directions |
| FlowLogs.CanonicalProtocol | flow_log_parser.py:83-87 | The name is one of icmp, tcp, udp, "Unknown", and is not "Unknown" exactly when the field parses as an integer in the protocol map |
| FlowLogs.RecordKey | flow_log_parser.py:69-89 | A line is skipped exactly when it has fewer than fourteen whitespace-separated fields (blank lines included); otherwise its key is field 6 as written and the name of field 7 |
| FlowLogs.ReadRecord | flow_log_parser.py:69-89 | The per-line parse with its two skip branches returns `RecordKey(line)` |
| FlowLogs.ParseFlowLogs | flow_log_parser.py:48-109 | The loop returns `FlowLogCounts(lookup, lines)`: the fold of the per-record counting, then "Untagged" set to the untagged count |
| FlowLogs.Count | flow_log_parser.py:92-101 | One record adds one to its pair count and one to the tag the table gives it, or, without an entry, one to the untagged count; every other count stays as it was |
| FlowLogs.ScanDecomposes | flow_log_parser.py:89-101 | The three counters of the pass are `Counter` of the tags the table gives the record keys, `Counter` of the record keys, and the number of keys the table does not know |
| FlowLogs.TagsOfPartition | flow_log_parser.py:92-99 | Every record key goes either to a tag from the table or to the untagged count, never both and never neither |
| FlowLogs.PortProtocolCounts | flow_log_parser.py:101 | `port_protocol_counts` holds exactly the record keys, each with its number of records |
| FlowLogs.TagCounts | flow_log_parser.py:96-103 | "Untagged" is always present and equals the number of records without an entry; any other tag counts the records the table maps to it |
| FlowLogs.Conservation | flow_log_parser.py:96-103 | The pair counts add up to the number of records; the tag counts add up to it too, less the hits on a tag literally named "Untagged" |
| FlowLogs.ConservationWithoutUntaggedTag | flow_log_parser.py:96-103 | With no table tag equal to "Untagged", both counters add up to the number of records |
| FlowLogs.RecordKeysAppend | flow_log_parser.py:68 | The records of two logs placed one after the other are the records of each, in order |
| FlowLogs.SkippedLineIgnored | flow_log_parser.py:71-79 | A blank or short line can be removed from anywhere in the log without changing either counter |
| FlowLogs.NoRecords | flow_log_parser.py:62-64 | A log without records (empty included) gives tag counts holding only "Untagged" with 0, and no pair counts |
| FlowLogs.OneMoreRecord | flow_log_parser.py:89-103 | One more record adds exactly one to its pair count and one to its tag or to "Untagged", and leaves every other count alone. A hit on a tag named "Untagged" is lost |
| FlowLogs.RecordKeysShape | flow_log_parser.py:82-89 | Every record key pairs a whitespace-free port with icmp, tcp, udp or "Unknown" |
| FlowLogs.CountedKeysShape | flow_log_parser.py:101 | Every key in `port_protocol_counts` has that shape |
| FlowLogs.UnreachableEntry | flow_log_parser.py:37 | A table entry whose protocol is not one of those four names (such as `TCP`) is never matched: removing it changes no count |
| FlowLogs.RecordKeyOfFields | flow_log_parser.py:69-82 | Any line, with any whitespace before, between (one run or more of any kind) and after its fields, is a record exactly when it has at least fourteen fields, and then the key is field 6 and the name of field 7 |
| FlowLogs.NonNumericProtocol | flow_log_parser.py:86-87 | The protocol field `abc` is "Unknown" |
| FlowLogs.OtherNumbersUnknown | flow_log_parser.py:85 | Any integer other than 1, 6 and 17, written in decimal (`999`, `-1`, `999999`), is "Unknown" |
| FlowLogs.SignedProtocol | flow_log_parser.py:85 | A sign is read as `int()` reads it: `+6` is tcp and `-6` is "Unknown" |
| FlowLogs.DigitsProtocol | flow_log_parser.py:85 | A protocol field of decimal digits gets the name of the number it spells |
| FlowLogs.LeadingZeroProtocol | flow_log_parser.py:85 | The protocol is normalised by value: `6` and `06` are both tcp |
| Text.Strip | flow_log_parser.py:37 | The result has no whitespace at either end, is no longer than the input, and equals the input exactly when the input had none |
| Text.StripSlice | flow_log_parser.py:69 | The stripped text is the input less a leading and a trailing run of whitespace |
| Text.Split | flow_log_parser.py:69 | Every field `split()` returns is non-empty and free of whitespace |
| Text.SplitCons | flow_log_parser.py:69 | A field followed by a run of whitespace of any length and kind splits as that field, then whatever the rest splits into |
| Text.SplitInterleave | flow_log_parser.py:69 | Leading whitespace, fields separated by non-empty whitespace runs, and trailing whitespace split into exactly those fields |
| Text.SplitJoin | flow_log_parser.py:69 | Splitting fields joined by single spaces gives back the fields |
| Text.SplitOfStrip | flow_log_parser.py:69 | `s.strip().split()` equals `s.split()` |
| Text.SplitBlank | flow_log_parser.py:71 | A line of whitespace only has no fields |
| Text.ParseDigits | flow_log_parser.py:85 | A value is read exactly when the text is one or more decimal digits |
| Text.ParseInt | flow_log_parser.py:85-87 | `int()` succeeds exactly when the stripped text is one or more decimal digits, optionally after a `+` or `-`; the value is the decimal value of the digits, negated after a `-` |
| Text.ParseIntRejects | flow_log_parser.py:85-87 | Text holding a character other than whitespace, a sign or a digit is not an integer |
| Text.ParseIntToString | flow_log_parser.py:85 | `int(str(n)) == n` for every integer |
| Text.DigitsValueLeadingZero | flow_log_parser.py:85 | A leading zero does not change the value read |
| Counters.Bump | flow_log_parser.py:96 | `c[k] += 1` adds the key, raises its count by one and leaves every other count alone |
| Counters.CounterOfCounts | flow_log_parser.py:62-63 | The counter built by repeated `+= 1` holds exactly the elements seen, each with its number of occurrences |
| Counters.SumBump | flow_log_parser.py:101 | Each `+= 1` raises the total by one |
| Counters.SumUpdate | flow_log_parser.py:103 | Overwriting one count changes the total by the difference |
| Counters.SumCounterOf | flow_log_parser.py:62-63 | The counts add up to the number of elements counted |

## Left out

- `write_output_file` and `main`: file output, sorting for display, command-line parsing and existence checks. They hold no logic of the core.
- Opening and reading files, and failures to do so. The lookup source is given as rows and the log as lines. The print-and-re-raise handlers become one error value: a lookup source with no header row.
- The messages printed in verbose mode. They change no result.
- The CSV dialect (quoting, escaped commas, embedded newlines). Rows arrive already split into fields.
- Text.ParseInt: does not accept the underscores Python's `int()` allows between digits, nor non-ASCII decimal digits. Only an optional sign and ASCII digits are modelled, inside surrounding whitespace.
- Text.ParseInt: skips the whole `str.isspace()` set around the number, while `int()` skips only ASCII whitespace once other whitespace is normalised, so `int()` rejects text such as `"\x1c6"` that the model reads as 6. This cannot reach the parser, whose `split()` fields hold no whitespace.
- Text.ParseInt: has no limit on the number of digits. Python's default limit of 4300 digits, an interpreter setting, makes a protocol field of more than 4300 digits (such as `000…06`) "Unknown" where the model reads it by value.
- Python's `Counter` returns 0 for a missing key without storing it; `Counters.Get` reads the same way. Printing or iterating a counter is not modelled.
- The lookup table is an argument of `FlowLogs.ParseFlowLogs` passed by value. That the source never changes it holds by construction; it is not stated as a separate lemma.
- The protocol name for an unknown protocol is `"Unknown"` with a capital U, as the code writes it (flow_log_parser.py:85, 87).
- The concrete duplicate-key file of the tests (tags `web-traffic-1`, `web-traffic-2`, and so on) is covered by `LookupTable.LastWriteWins` for all inputs, not by a separate example.
