/**
  Parsing the flow log (`parse_flow_logs`): each line is split on whitespace; a line with
  at least fourteen fields is a record whose destination port (field 6) and protocol
  number (field 7, turned into a name) form a key. The key is counted, and so is the tag
  the lookup table gives it, or the untagged count when the table has no entry for it.
  The file itself is outside the model: the log arrives as its sequence of lines.
 */
module FlowLogs {
  import opened Wrappers
  import opened Text
  import opened Counters
  import opened LookupTable

  /** Fields in a record of the default (version 2) VPC flow log format. */
  const NumFields: nat := 14
  /** Positions of `dstport` and `protocol` in that format. */
  const DstPortField: nat := 6
  const ProtocolField: nat := 7

  /** IANA protocol numbers the parser names; every other number is unknown. */
  const ProtocolMap: map<int, string> := map[1 := "icmp", 6 := "tcp", 17 := "udp"]
  const UnknownProtocol: string := "Unknown"

  /** The tag-count key that receives the number of records the lookup table does not tag. */
  const UntaggedTag: string := "Untagged"

  /** The names a record's protocol can take. */
  predicate IsProtocolName(name: string) {
    name == "icmp" || name == "tcp" || name == "udp" || name == UnknownProtocol
  }

  /** `PROTOCOL_MAP.get(n, "Unknown")`. */
  function ProtocolName(n: int): (name: string)
    ensures name == "icmp" <==> n == 1
    ensures name == "tcp" <==> n == 6
    ensures name == "udp" <==> n == 17
    ensures name == UnknownProtocol <==> n != 1 && n != 6 && n != 17
  {
    if n in ProtocolMap then ProtocolMap[n] else UnknownProtocol
  }

  /** The protocol name of a raw protocol field: the name of its integer value, or
      "Unknown" when the field is not an integer (the `ValueError` branch). */
  function CanonicalProtocol(raw: string): (name: string)
    ensures IsProtocolName(name)
    ensures name != UnknownProtocol <==> ParseInt(raw).Some? && ParseInt(raw).value in ProtocolMap
  {
    match ParseInt(raw)
    case Some(n) => ProtocolName(n)
    case None => UnknownProtocol
  }

  /** `line.strip().split()`. */
  function Fields(line: string): seq<string> {
    Split(Strip(line))
  }

  /** The key a log line counts under, or None for a line that is skipped
      (blank, or fewer than fourteen fields). */
  function RecordKey(line: string): (r: Option<Key>)
    ensures r.None? <==> |Fields(line)| < NumFields
    ensures r.Some? ==> r.value == (Fields(line)[DstPortField], CanonicalProtocol(Fields(line)[ProtocolField]))
  {
    var parts := Fields(line);
    if |parts| < NumFields then None
    else
      assert IsField(parts[DstPortField]) && IsField(parts[ProtocolField]);
      Some((Strip(parts[DstPortField]), CanonicalProtocol(Strip(parts[ProtocolField]))))
  }

  /** How `RecordKey` reads the fields of a line. */
  lemma RecordKeyOfParts(line: string)
    ensures var parts := Split(Strip(line));
      RecordKey(line)
        == if |parts| < NumFields then None
           else Some((Strip(parts[DstPortField]), CanonicalProtocol(Strip(parts[ProtocolField]))))
  {
  }

  /** The three counters of the pass: tag counts, (port, protocol) counts and the
      number of records without a tag. */
  datatype Tally = Tally(tagCounts: map<string, nat>, portProtocolCounts: map<Key, nat>, untaggedCount: nat)

  /** Counting one record under `key`: one more for the key, and one more either for the
      tag the table gives it or for the untagged count; nothing else changes. */
  function Count(lookup: Table, t: Tally, key: Key): (r: Tally)
    ensures Get(r.portProtocolCounts, key) == Get(t.portProtocolCounts, key) + 1
    ensures forall k :: k != key ==> Get(r.portProtocolCounts, k) == Get(t.portProtocolCounts, k)
    ensures key in lookup ==>
      && Get(r.tagCounts, lookup[key]) == Get(t.tagCounts, lookup[key]) + 1
      && (forall tag :: tag != lookup[key] ==> Get(r.tagCounts, tag) == Get(t.tagCounts, tag))
      && r.untaggedCount == t.untaggedCount
    ensures key !in lookup ==> r.tagCounts == t.tagCounts && r.untaggedCount == t.untaggedCount + 1
  {
    if key in lookup then
      Tally(Bump(t.tagCounts, lookup[key]), Bump(t.portProtocolCounts, key), t.untaggedCount)
    else
      Tally(t.tagCounts, Bump(t.portProtocolCounts, key), t.untaggedCount + 1)
  }

  /** The counters after the pass over `lines`, one line after another. */
  function Scan(lookup: Table, lines: seq<string>): Tally {
    if lines == [] then Tally(map[], map[], 0)
    else
      var t := Scan(lookup, lines[..|lines| - 1]);
      match RecordKey(lines[|lines| - 1])
      case None => t
      case Some(key) => Count(lookup, t, key)
  }

  /** What `parse_flow_logs` returns: after the pass, the untagged count is stored
      under "Untagged", replacing whatever was counted there. */
  function FlowLogCounts(lookup: Table, lines: seq<string>): (map<string, nat>, map<Key, nat>) {
    var t := Scan(lookup, lines);
    (t.tagCounts[UntaggedTag := t.untaggedCount], t.portProtocolCounts)
  }

  /** The first half of the loop body of `parse_flow_logs`: split the line, skip it when
      it is blank or too short, otherwise read its port and normalise its protocol.
      It computes `RecordKey` step by step, as the loop does, with the two early exits
      (blank line, short line) that the loop takes with `continue`. */
  method ReadRecord(line: string) returns (record: Option<Key>)
    ensures record == RecordKey(line)
  {
    var parts := Split(Strip(line));
    RecordKeyOfParts(line);
    if parts == [] {
      return None;  // blank line
    }
    if |parts| < NumFields {
      return None;  // malformed line
    }
    var dstport, protocol := Strip(parts[DstPortField]), Strip(parts[ProtocolField]);
    var name := CanonicalProtocol(protocol);
    return Some((dstport, name));
  }

  /** `parse_flow_logs`: one pass over the lines, updating the counters in place. */
  method ParseFlowLogs(lines: seq<string>, lookup: Table)
    returns (tagCounts: map<string, nat>, portProtocolCounts: map<Key, nat>)
    ensures (tagCounts, portProtocolCounts) == FlowLogCounts(lookup, lines)
  {
    tagCounts, portProtocolCounts := map[], map[];
    var untaggedCount := 0;
    var i := 0;
    while i < |lines|
      invariant 0 <= i <= |lines|
      invariant Scan(lookup, lines[..i]) == Tally(tagCounts, portProtocolCounts, untaggedCount)
    {
      var record := ReadRecord(lines[i]);
      ScanPrefix(lookup, lines, i);
      if record.Some? {
        var key := record.value;
        if key in lookup {
          var tag := lookup[key];
          tagCounts := Bump(tagCounts, tag);
        } else {
          untaggedCount := untaggedCount + 1;
        }
        portProtocolCounts := Bump(portProtocolCounts, key);
      }
      assert Scan(lookup, lines[..i + 1]) == Tally(tagCounts, portProtocolCounts, untaggedCount);
      i := i + 1;
    }
    assert lines[..i] == lines;
    tagCounts := tagCounts[UntaggedTag := untaggedCount];
  }

  // ----- Reference definitions: the records, and what each one is counted under -----

  /** The keys of the records among `lines`, in order; skipped lines contribute nothing. */
  function RecordKeys(lines: seq<string>): seq<Key> {
    if lines == [] then [] else RecordKeys(lines[..|lines| - 1]) + LineKeys(lines[|lines| - 1])
  }

  /** The key of one line, as a sequence of none or one. */
  function LineKeys(line: string): seq<Key> {
    match RecordKey(line)
    case None => []
    case Some(key) => [key]
  }

  lemma RecordKeysSnoc(lines: seq<string>, line: string)
    ensures RecordKeys(lines + [line]) == RecordKeys(lines) + LineKeys(line)
  {
    assert (lines + [line])[..|lines|] == lines;
  }

  lemma ScanPrefix(lookup: Table, lines: seq<string>, i: nat)
    requires i < |lines|
    ensures Scan(lookup, lines[..i + 1])
         == match RecordKey(lines[i]) case None => Scan(lookup, lines[..i]) case Some(key) => Count(lookup, Scan(lookup, lines[..i]), key)
  {
    assert lines[..i + 1][..i] == lines[..i];
  }

  /** The tags the lookup table gives to those keys it has an entry for. */
  function TagsOf(lookup: Table, keys: seq<Key>): seq<string> {
    if keys == [] then []
    else
      var key := keys[|keys| - 1];
      TagsOf(lookup, keys[..|keys| - 1]) + if key in lookup then [lookup[key]] else []
  }

  /** The keys the lookup table has no entry for. */
  function Untagged(lookup: Table, keys: seq<Key>): seq<Key> {
    if keys == [] then []
    else
      var key := keys[|keys| - 1];
      Untagged(lookup, keys[..|keys| - 1]) + if key in lookup then [] else [key]
  }

  lemma CounterOfSnoc<K(!new)>(s: seq<K>, x: K)
    ensures CounterOf(s + [x]) == Bump(CounterOf(s), x)
  {
    assert (s + [x])[..|s|] == s;
  }

  lemma TagsOfSnoc(lookup: Table, keys: seq<Key>, key: Key)
    ensures TagsOf(lookup, keys + [key]) == TagsOf(lookup, keys) + if key in lookup then [lookup[key]] else []
    ensures Untagged(lookup, keys + [key]) == Untagged(lookup, keys) + if key in lookup then [] else [key]
  {
    assert (keys + [key])[..|keys|] == keys;
  }

  /** The pass counts every record key, every tag the table gives, and every key it does not know. */
  lemma {:induction false} ScanDecomposes(lookup: Table, lines: seq<string>)
    ensures var keys := RecordKeys(lines);
      Scan(lookup, lines)
        == Tally(CounterOf(TagsOf(lookup, keys)), CounterOf(keys), |Untagged(lookup, keys)|)
  {
    if lines != [] {
      var init := lines[..|lines| - 1];
      ScanDecomposes(lookup, init);
      var keys := RecordKeys(init);
      match RecordKey(lines[|lines| - 1])
      case None =>
        assert RecordKeys(lines) == keys + [];
        assert keys + [] == keys;
      case Some(key) =>
        assert RecordKeys(lines) == keys + [key];
        TagsOfSnoc(lookup, keys, key);
        CounterOfSnoc(keys, key);
        if key in lookup {
          CounterOfSnoc(TagsOf(lookup, keys), lookup[key]);
        } else {
          assert TagsOf(lookup, keys + [key]) == TagsOf(lookup, keys) + [];
          assert TagsOf(lookup, keys) + [] == TagsOf(lookup, keys);
        }
    }
  }

  /** Every record goes to exactly one of the two: a tag, or the untagged count. */
  lemma {:induction false} TagsOfPartition(lookup: Table, keys: seq<Key>)
    ensures |TagsOf(lookup, keys)| + |Untagged(lookup, keys)| == |keys|
    ensures forall i :: 0 <= i < |TagsOf(lookup, keys)| ==> TagsOf(lookup, keys)[i] in lookup.Values
  {
    if keys != [] {
      TagsOfPartition(lookup, keys[..|keys| - 1]);
    }
  }

  // ----- Properties of the result -----

  /** `port_protocol_counts[key]` is the number of records with that key, and holds
      exactly the keys that occur. */
  lemma {:induction false} PortProtocolCounts(lookup: Table, lines: seq<string>, key: Key)
    ensures key in FlowLogCounts(lookup, lines).1 <==> key in RecordKeys(lines)
    ensures Get(FlowLogCounts(lookup, lines).1, key) == multiset(RecordKeys(lines))[key]
  {
    ScanDecomposes(lookup, lines);
    CounterOfCounts(RecordKeys(lines), key);
  }

  /** "Untagged" is always present and counts the records the table has no entry for;
      every other tag counts the records the table maps to it. */
  lemma TagCounts(lookup: Table, lines: seq<string>, tag: string)
    ensures UntaggedTag in FlowLogCounts(lookup, lines).0
    ensures FlowLogCounts(lookup, lines).0[UntaggedTag] == |Untagged(lookup, RecordKeys(lines))|
    ensures tag != UntaggedTag ==>
      && (tag in FlowLogCounts(lookup, lines).0 <==> tag in TagsOf(lookup, RecordKeys(lines)))
      && Get(FlowLogCounts(lookup, lines).0, tag) == multiset(TagsOf(lookup, RecordKeys(lines)))[tag]
  {
    ScanDecomposes(lookup, lines);
    CounterOfCounts(TagsOf(lookup, RecordKeys(lines)), tag);
  }

  /** Conservation: the (port, protocol) counts add up to the number of records, and so do
      the tag counts, except for the hits on a tag literally named "Untagged", which the
      final assignment overwrites. */
  lemma Conservation(lookup: Table, lines: seq<string>)
    ensures Sum(FlowLogCounts(lookup, lines).1) == |RecordKeys(lines)|
    ensures Sum(FlowLogCounts(lookup, lines).0) + multiset(TagsOf(lookup, RecordKeys(lines)))[UntaggedTag]
         == |RecordKeys(lines)|
  {
    var keys := RecordKeys(lines);
    var tags := TagsOf(lookup, keys);
    ScanDecomposes(lookup, lines);
    SumCounterOf(keys);
    SumCounterOf(tags);
    TagsOfPartition(lookup, keys);
    CounterOfCounts(tags, UntaggedTag);
    SumUpdate(CounterOf(tags), UntaggedTag, |Untagged(lookup, keys)|);
  }

  /** When no tag in the table is "Untagged", both counters add up to the number of records. */
  lemma ConservationWithoutUntaggedTag(lookup: Table, lines: seq<string>)
    requires UntaggedTag !in lookup.Values
    ensures Sum(FlowLogCounts(lookup, lines).0) == Sum(FlowLogCounts(lookup, lines).1) == |RecordKeys(lines)|
  {
    var tags := TagsOf(lookup, RecordKeys(lines));
    Conservation(lookup, lines);
    TagsOfPartition(lookup, RecordKeys(lines));
    assert UntaggedTag !in tags;
  }

  /** The records of two logs one after the other are the records of each. */
  lemma {:induction false} RecordKeysAppend(a: seq<string>, b: seq<string>)
    ensures RecordKeys(a + b) == RecordKeys(a) + RecordKeys(b)
  {
    if b == [] {
      assert a + b == a;
    } else {
      var init, last := b[..|b| - 1], b[|b| - 1];
      assert a + b == (a + init) + [last];
      assert b == init + [last];
      calc {
        RecordKeys(a + b);
        { RecordKeysSnoc(a + init, last); }
        RecordKeys(a + init) + LineKeys(last);
        { RecordKeysAppend(a, init); }
        RecordKeys(a) + RecordKeys(init) + LineKeys(last);
        { RecordKeysSnoc(init, last); }
        RecordKeys(a) + RecordKeys(b);
      }
    }
  }

  /** A skipped line (blank, or too few fields) can be removed from anywhere without
      changing either counter. */
  lemma SkippedLineIgnored(lookup: Table, before: seq<string>, line: string, after: seq<string>)
    requires |Fields(line)| < NumFields
    ensures FlowLogCounts(lookup, before + [line] + after) == FlowLogCounts(lookup, before + after)
  {
    RecordKeysAppend(before + [line], after);
    RecordKeysAppend(before, [line]);
    RecordKeysAppend(before, after);
    RecordKeysSnoc([], line);
    assert RecordKeys([line]) == [];
    assert RecordKeys(before) + [] == RecordKeys(before);
    ScanDecomposes(lookup, before + [line] + after);
    ScanDecomposes(lookup, before + after);
  }

  /** A log without a single record gives no (port, protocol) counts and a lone "Untagged" of 0. */
  lemma {:induction false} NoRecords(lookup: Table, lines: seq<string>)
    requires forall i :: 0 <= i < |lines| ==> |Fields(lines[i])| < NumFields
    ensures FlowLogCounts(lookup, lines) == (map[UntaggedTag := 0], map[])
  {
    if lines != [] {
      NoRecords(lookup, lines[..|lines| - 1]);
    }
  }

  /** One more record adds one to its (port, protocol) count and one to either its tag or
      "Untagged", and changes nothing else; a hit on a tag named "Untagged" is lost. */
  lemma OneMoreRecord(lookup: Table, lines: seq<string>, line: string)
    requires RecordKey(line).Some?
    ensures var key := RecordKey(line).value;
      var (tags0, ports0) := FlowLogCounts(lookup, lines);
      var (tags1, ports1) := FlowLogCounts(lookup, lines + [line]);
      && Get(ports1, key) == Get(ports0, key) + 1
      && (forall k :: k != key ==> Get(ports1, k) == Get(ports0, k))
      && var bumped := if key in lookup then lookup[key] else UntaggedTag;
      && (bumped != UntaggedTag || key !in lookup ==> Get(tags1, bumped) == Get(tags0, bumped) + 1)
      && (forall tag :: tag != bumped ==> Get(tags1, tag) == Get(tags0, tag))
      && (key in lookup && lookup[key] == UntaggedTag ==> Get(tags1, UntaggedTag) == Get(tags0, UntaggedTag))
  {
    assert (lines + [line])[..|lines|] == lines;
  }

  /** Every counted key pairs a whitespace-free port with one of the four protocol names. */
  lemma {:induction false} RecordKeysShape(lines: seq<string>)
    ensures forall i :: 0 <= i < |RecordKeys(lines)| ==>
      IsField(RecordKeys(lines)[i].0) && IsProtocolName(RecordKeys(lines)[i].1)
  {
    if lines != [] {
      var line := lines[|lines| - 1];
      RecordKeysShape(lines[..|lines| - 1]);
      if RecordKey(line).Some? {
        assert IsField(Fields(line)[DstPortField]);
      }
    }
  }

  /** So `port_protocol_counts` only ever holds keys of that shape. */
  lemma CountedKeysShape(lookup: Table, lines: seq<string>, key: Key)
    requires key in FlowLogCounts(lookup, lines).1
    ensures IsField(key.0) && IsProtocolName(key.1)
  {
    PortProtocolCounts(lookup, lines, key);
    RecordKeysShape(lines);
  }

  /** A table entry whose protocol is not one of the names a record can carry (such as
      "TCP" in capitals) is never matched: removing it changes nothing. */
  lemma {:induction false} UnreachableEntry(lookup: Table, lines: seq<string>, k: Key)
    requires !IsProtocolName(k.1)
    ensures FlowLogCounts(lookup - {k}, lines) == FlowLogCounts(lookup, lines)
    ensures Scan(lookup - {k}, lines) == Scan(lookup, lines)
  {
    if lines != [] {
      UnreachableEntry(lookup, lines[..|lines| - 1], k);
    }
  }

  /** Any line, whatever whitespace surrounds and separates its fields, is a record
      exactly when it has at least fourteen fields, keyed by its seventh field and the
      name of its eighth. */
  lemma RecordKeyOfFields(lead: string, fields: seq<string>, seps: seq<string>)
    requires AllSpace(lead) && Separated(fields, seps)
    ensures |fields| < NumFields ==> RecordKey(lead + Interleave(fields, seps)) == None
    ensures |fields| >= NumFields ==>
      RecordKey(lead + Interleave(fields, seps))
        == Some((fields[DstPortField], CanonicalProtocol(fields[ProtocolField])))
  {
    SplitInterleave(lead, fields, seps);
    SplitOfStrip(lead + Interleave(fields, seps));
  }

  // ----- Protocol normalisation on sample fields -----

  /** Text that is not an integer is an unknown protocol. */
  lemma NonNumericProtocol()
    ensures CanonicalProtocol("abc") == UnknownProtocol
  {
    ParseIntRejects("abc", 0);
  }

  /** Integers other than 1, 6 and 17, negative ones included, are unknown protocols. */
  lemma OtherNumbersUnknown(n: int)
    requires n != 1 && n != 6 && n != 17
    ensures CanonicalProtocol(IntToString(n)) == UnknownProtocol
  {
    ParseIntToString(n);
  }

  /** A field of decimal digits names the protocol of its value. */
  lemma DigitsProtocol(ds: string)
    requires ds != [] && AllDigits(ds)
    ensures CanonicalProtocol(ds) == ProtocolName(DigitsValue(ds))
  {
    assert IsDigit(ds[0]) && IsDigit(ds[|ds| - 1]);
    assert Strip(ds) == ds;
    assert !(ds[0] == '+' || ds[0] == '-');
  }

  /** A sign is read as `int()` reads it: `+6` is tcp, `-6` is unknown. */
  lemma SignedProtocol()
    ensures CanonicalProtocol("+6") == "tcp" && CanonicalProtocol("-6") == UnknownProtocol
  {
    assert Strip("+6") == "+6" && Strip("-6") == "-6";
    assert "+6"[1..] == "6" && "-6"[1..] == "6";
    assert DigitsValue("6") == 6;
  }

  /** The protocol is normalised by value: `6` and `06` are both tcp. */
  lemma LeadingZeroProtocol(ds: string)
    requires ds != [] && AllDigits(ds) && DigitsValue(ds) == 6
    ensures CanonicalProtocol(ds) == "tcp" && CanonicalProtocol("0" + ds) == "tcp"
  {
    DigitsValueLeadingZero(ds);
    DigitsProtocol(ds);
    DigitsProtocol("0" + ds);
  }
}
