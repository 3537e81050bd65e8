/** The text form of a numeric contract: eleven `key=value` lines under a header, with
    a hash over the fields (node/src/evidence/numeric.cpp). */
module NumericEvidence {
  import opened Words
  import Fnv

  type u8 = Fnv.u8

  // ------------------------------------------------------------------- the contract

  /** Nine byte fields: domain, arithmetic, authority, determinism, integer bits,
      fraction bits, rounding, overflow, approximation. The enumerations are kept as
      the bytes they are stored in, since any byte can be decoded into them. */
  type Contract = c: seq<u8> | |c| == 9 witness [0, 0, 0, 0, 0, 0, 3, 0, 0]

  const DEFAULT: Contract := [0, 0, 0, 0, 0, 0, 3, 0, 0]
  const SCHEMA_TAG: u64 := 1

  predicate IsIntegerDomain(domain: u8) {
    domain <= 3
  }

  predicate IsFixedDomain(domain: u8) {
    domain == 4
  }

  predicate IsFloatingDomain(domain: u8) {
    domain == 5 || domain == 6
  }

  predicate ValidFixedPolicy(c: Contract) {
    && c[4] >= 1 && c[5] >= 1 && (c[4] as int + c[5] as int == 32 || c[4] as int + c[5] as int == 64)
    && c[6] <= 3 && c[7] <= 1 && c[8] <= 1
  }

  predicate CanonicalNonFixedPolicy(c: Contract) {
    c[4] == 0 && c[5] == 0 && c[6] == 3 && c[7] == 0 && c[8] == 0
  }

  predicate Valid(c: Contract) {
    var domain, arithmetic, authority, determinism := c[0], c[1], c[2], c[3];
    && domain <= 6 && arithmetic <= 6 && authority <= 3 && determinism <= 2
    && (authority == 0 ==> determinism == 0)
    && (if IsFixedDomain(domain) then ValidFixedPolicy(c) else CanonicalNonFixedPolicy(c))
    && match arithmetic
       case 0 => IsIntegerDomain(domain)
       case 1 => IsIntegerDomain(domain)
       case 2 => IsFixedDomain(domain)
       case 3 => IsFloatingDomain(domain) && authority != 0
       case 4 => IsFloatingDomain(domain)
       case _ => domain == 3
  }

  /** The declared byte count, the schema tag in four bytes, then the fields. */
  function HashContract(c: Contract): u64 {
    Fnv.HashFrom(Fnv.OFFSET, [13, 1, 0, 0, 0] + c)
  }

  /** The valid contracts, domain by domain: what arithmetic an integer, a fixed-point
      and a floating-point one may have, and that only fixed point has a policy. */
  lemma ValidMeans(c: Contract)
    ensures Valid(c) <==>
              && c[2] <= 3 && c[3] <= 2 && (c[2] == 0 ==> c[3] == 0)
              && (c[0] != 4 ==> c[4..] == [0, 0, 3, 0, 0])
              && match c[0]
                 case 0 => c[1] <= 1
                 case 1 => c[1] <= 1
                 case 2 => c[1] <= 1
                 case 3 => c[1] <= 1 || c[1] == 5 || c[1] == 6
                 case 4 =>
                   && c[1] == 2 && c[4] > 0 && c[5] > 0
                   && (c[4] as int + c[5] as int == 32 || c[4] as int + c[5] as int == 64)
                   && c[6] <= 3 && c[7] <= 1 && c[8] <= 1
                 case 5 => c[1] == 4 || (c[1] == 3 && c[2] != 0)
                 case 6 => c[1] == 4 || (c[1] == 3 && c[2] != 0)
                 case _ => false
  {
    assert c[4..] == [c[4], c[5], c[6], c[7], c[8]];
  }

  // -------------------------------------------------------------------- plain text

  function Find(s: string, c: char): (r: nat)
    ensures r <= |s| && (r < |s| ==> s[r] == c)
    ensures forall i :: 0 <= i < r ==> s[i] != c
  {
    if s == "" || s[0] == c then 0 else 1 + Find(s[1..], c)
  }

  /** The lines of a text; a final line break ends the last line rather than beginning
      another. */
  function SplitLines(text: string): seq<string>
    decreases |text|
  {
    if text == "" then []
    else
      var end := Find(text, '\n');
      if end == |text| then [text] else [text[..end]] + SplitLines(text[end + 1..])
  }

  function Decimal(n: nat): (r: string)
    ensures r != "" && forall c :: c in r ==> '0' <= c <= '9'
  {
    var digit := ('0' as int + n % 10) as char;
    if n < 10 then [digit] else Decimal(n / 10) + [digit]
  }

  predicate AllDigits(text: string) {
    forall i :: 0 <= i < |text| ==> '0' <= text[i] <= '9'
  }

  function DecimalValue(text: string): nat
    requires AllDigits(text)
  {
    if text == "" then 0
    else DecimalValue(text[..|text| - 1]) * 10 + (text[|text| - 1] as int - '0' as int)
  }

  /** Only digits, at least one, and a value that fits: no sign, no space. */
  function ParseUnsigned(text: string): Option<u64> {
    if text == "" || !AllDigits(text) || DecimalValue(text) > U64_MAX then None else Some(DecimalValue(text))
  }

  lemma {:induction false} DecimalParses(n: nat)
    ensures AllDigits(Decimal(n)) && DecimalValue(Decimal(n)) == n
  {
    var text := Decimal(n);
    if n >= 10 {
      DecimalParses(n / 10);
      assert text[..|text| - 1] == Decimal(n / 10);
    } else {
      assert text[..0] == "";
    }
  }

  // ------------------------------------------------------------------------- fields

  const KEYS: seq<string> := [
    "schema", "domain", "arithmetic", "authority", "determinism", "integer_bits", "fraction_bits",
    "rounding", "overflow", "approximation", "hash"]

  function KeyFrom(key: string, i: nat): (r: Option<nat>)
    requires i <= 11
    ensures r.Some? ==> i <= r.value < 11 && KEYS[r.value] == key
    decreases 11 - i
  {
    if i == 11 then None else if KEYS[i] == key then Some(i) else KeyFrom(key, i + 1)
  }

  function KeyIndex(key: string): (r: Option<nat>)
    ensures r.Some? ==> r.value < 11
  {
    KeyFrom(key, 0)
  }

  datatype Failure = NoFailure | BadHeader | DuplicateField | MissingField | BadValue | HashInvalid

  datatype Fields = Fields(contract: Contract, hash: u64, seen: set<int>, failure: Failure)

  const START := Fields(DEFAULT, 0, {}, NoFailure)

  predicate ValueOk(k: nat, value: u64) {
    if k == 0 then value == SCHEMA_TAG else if k == 10 then true else value < 256
  }

  /** The effect of a field that is new and whose value passes. */
  function Assign(f: Fields, k: nat, value: u64): Fields
    requires k < 11 && ValueOk(k, value)
  {
    var claimed := f.(seen := f.seen + {k});
    if k == 0 then claimed
    else if k == 10 then claimed.(hash := value)
    else claimed.(contract := f.contract[k - 1 := value])
  }

  function ParseField(f: Fields, key: string, text: string): Fields {
    var k := KeyIndex(key);
    if k.None? then f.(failure := BadHeader)
    else if k.value in f.seen then f.(failure := DuplicateField)
    else
      var value := ParseUnsigned(text);
      if value.None? || !ValueOk(k.value, value.value) then f.(seen := f.seen + {k.value}, failure := BadValue)
      else Assign(f, k.value, value.value)
  }

  function ParseLine(f: Fields, line: string): Fields {
    var equals := Find(line, '=');
    if line == "" || equals == |line| || equals == 0 || equals + 1 == |line| then f.(failure := BadHeader)
    else ParseField(f, line[..equals], line[equals + 1..])
  }

  function DecodeLines(f: Fields, lines: seq<string>): Fields
    decreases |lines|
  {
    if lines == [] then f
    else
      var next := ParseLine(f, lines[0]);
      if next.failure != NoFailure then next else DecodeLines(next, lines[1..])
  }

  function Finish(f: Fields): Fields {
    if f.failure != NoFailure then f
    else if f.seen != NatsBelow(11) then f.(failure := MissingField)
    else if !Valid(f.contract) then f.(failure := BadValue)
    else if f.hash != HashContract(f.contract) then f.(failure := HashInvalid)
    else f
  }

  const HEADER: string := "rund.numeric.evidence\n"

  predicate HasHeader(text: string) {
    |HEADER| <= |text| && text[..|HEADER|] == HEADER
  }

  function DecodedOf(text: string): Fields {
    if HasHeader(text) then Finish(DecodeLines(START, SplitLines(text[|HEADER|..])))
    else START.(failure := BadHeader)
  }

  function After(text: string, cursor: nat): string {
    if cursor <= |text| then text[cursor..] else ""
  }

  lemma SplitFirst(text: string)
    requires text != ""
    ensures var end := Find(text, '\n'); SplitLines(text) == [text[..end]] + SplitLines(After(text, end + 1))
  {
    if Find(text, '\n') == |text| {
      assert text[..|text|] == text;
    }
  }

  lemma AfterAfter(text: string, cursor: nat, skip: nat)
    requires cursor < |text|
    ensures After(text[cursor..], skip) == After(text, cursor + skip)
  {
  }

  /** The line at the cursor, and what follows its end. */
  lemma NextLine(text: string, cursor: nat, end: nat)
    requires cursor < |text| && end == cursor + Find(text[cursor..], '\n')
    ensures SplitLines(text[cursor..]) == [text[cursor..end]] + SplitLines(After(text, end + 1))
  {
    hide SplitLines;
    hide Find;
    hide After;
    SplitFirst(text[cursor..]);
    AfterAfter(text, cursor, end - cursor + 1);
    assert text[cursor..end] == text[cursor..][..end - cursor];
  }

  lemma DecodeNext(f: Fields, line: string, rest: seq<string>)
    ensures DecodeLines(f, [line] + rest)
         == if ParseLine(f, line).failure != NoFailure then ParseLine(f, line) else DecodeLines(ParseLine(f, line),
               rest)
  {
    assert ([line] + rest)[1..] == rest;
  }

  /** One turn of the cursor loop; `decoded` is what the whole text decodes to. */
  method ReadLine(encoded: string, cursor: nat, fields: Fields, ghost decoded: Fields)
    returns (next: Fields, after: nat)
    requires cursor < |encoded| && decoded == DecodeLines(fields, SplitLines(After(encoded, cursor)))
    ensures cursor < after
    ensures decoded == if next.failure != NoFailure then next else DecodeLines(next, SplitLines(After(encoded, after)))
  {
    hide SplitLines;
    hide Find;
    hide DecodeLines;
    hide ParseLine;
    var lineEnd := cursor + Find(encoded[cursor..], '\n');
    NextLine(encoded, cursor, lineEnd);
    DecodeNext(fields, encoded[cursor..lineEnd], SplitLines(After(encoded, lineEnd + 1)));
    next, after := ParseLine(fields, encoded[cursor..lineEnd]), lineEnd + 1;
  }

  /** The cursor loop reads the text line by line and stops at the first failure. */
  method DecodeBody(encoded: string) returns (fields: Fields)
    requires HasHeader(encoded)
    ensures fields == DecodeLines(START, SplitLines(encoded[|HEADER|..]))
  {
    fields := START;
    var cursor := |HEADER|;
    ghost var decoded := DecodeLines(START, SplitLines(encoded[|HEADER|..]));
    while cursor < |encoded|
      invariant fields.failure == NoFailure && 0 <= cursor
      invariant decoded == DecodeLines(fields, SplitLines(After(encoded, cursor)))
      decreases |encoded| - cursor
    {
      fields, cursor := ReadLine(encoded, cursor, fields, decoded);
      if fields.failure != NoFailure {
        return;
      }
    }
  }

  method DecodeFields(encoded: string) returns (fields: Fields)
    ensures fields == DecodedOf(encoded)
  {
    if !HasHeader(encoded) {
      return START.(failure := BadHeader);
    }
    fields := DecodeBody(encoded);
    if fields.failure == NoFailure {
      fields := Finish(fields);
    }
  }

  datatype Numeric = Numeric(contract: Contract, code: Failure)

  /** Decoding keeps the contract of an accepted text and nothing of any other. */
  method Decode(encoded: string) returns (r: Numeric)
    ensures r.code == DecodedOf(encoded).failure
    ensures r.contract == if r.code == NoFailure then DecodedOf(encoded).contract else DEFAULT
  {
    var fields := DecodeFields(encoded);
    r := Numeric(if fields.failure == NoFailure then fields.contract else DEFAULT, fields.failure);
  }

  // ------------------------------------------------------------------- round trip

  function LineOf(k: nat, value: nat): string
    requires k < 11
  {
    KEYS[k] + "=" + Decimal(value)
  }

  /** Value of field k as it is written. */
  function FieldOf(c: Contract, hash: u64, k: nat): u64
    requires k < 11
  {
    if k == 0 then SCHEMA_TAG else if k == 10 then hash else c[k - 1]
  }

  function EncodedFrom(c: Contract, hash: u64, k: nat): string
    requires k <= 11
    decreases 11 - k
  {
    if k == 11 then "" else LineOf(k, FieldOf(c, hash, k)) + "\n" + EncodedFrom(c, hash, k + 1)
  }

  method AppendLine(out: string, key: string, value: u64) returns (r: string)
    ensures r == out + (key + "=" + Decimal(value) + "\n")
  {
    r := out + key;
    r := r + "=";
    r := r + Decimal(value);
    r := r + "\n";
  }

  function EncodedTo(c: Contract, hash: u64, k: nat): string
    requires k <= 11
  {
    if k == 0 then HEADER else EncodedTo(c, hash, k - 1) + (LineOf(k - 1, FieldOf(c, hash, k - 1)) + "\n")
  }

  /** Evidence that is not accepted encodes to nothing. */
  method Encode(evidence: Numeric) returns (encoded: string)
    ensures encoded == if evidence.code == NoFailure
                       then EncodedTo(evidence.contract, HashContract(evidence.contract), 11) else ""
  {
    if evidence.code != NoFailure {
      return "";
    }
    var c, hash := evidence.contract, HashContract(evidence.contract);
    encoded := HEADER;
    for k := 0 to 11
      invariant encoded == EncodedTo(c, hash, k)
    {
      encoded := AppendLine(encoded, KEYS[k], FieldOf(c, hash, k));
    }
  }

  lemma {:induction false} EncodedParts(c: Contract, hash: u64, k: nat)
    requires k <= 11
    ensures EncodedTo(c, hash, k) + EncodedFrom(c, hash, k) == HEADER + EncodedFrom(c, hash, 0)
  {
    if k > 0 {
      EncodedParts(c, hash, k - 1);
      ConcatAssociates(EncodedTo(c, hash, k - 1), LineOf(k - 1, FieldOf(c, hash, k - 1)) + "\n", EncodedFrom(c,
            hash, k));
    }
  }

  lemma KeysArePlain(k: nat)
    requires k < 11
    ensures KEYS[k] != "" && '=' !in KEYS[k] && '\n' !in KEYS[k]
  {
  }

  /** Length and first letter tell the keys apart. */
  lemma KeysDiffer(i: nat, j: nat)
    requires i < j < 11
    ensures KEYS[i] != KEYS[j]
  {
    assert |KEYS[i]| == |KEYS[j]| ==> KEYS[i][0] != KEYS[j][0];
  }

  lemma {:induction false} KeyFound(k: nat, i: nat)
    requires i <= k < 11
    ensures KeyFrom(KEYS[k], i) == Some(k)
    decreases k - i
  {
    if i < k {
      KeysDiffer(i, k);
      KeyFound(k, i + 1);
    }
  }

  lemma {:induction false} FindSkips(head: string, c: char, tail: string)
    requires c !in head
    ensures Find(head + [c] + tail, c) == |head|
  {
    var s := head + [c] + tail;
    if head != "" {
      assert head[0] in head && s[0] == head[0];
      assert s[1..] == head[1..] + [c] + tail;
      FindSkips(head[1..], c, tail);
    }
  }

  lemma LineSplitsAtKey(k: nat, value: nat)
    requires k < 11
    ensures var line, equals := LineOf(k, value), |KEYS[k]|;
            && Find(line, '=') == equals && 0 < equals < |line| - 1
            && line[..equals] == KEYS[k] && line[equals + 1..] == Decimal(value)
  {
    KeysArePlain(k);
    FindSkips(KEYS[k], '=', Decimal(value));
  }

  lemma FieldParses(f: Fields, k: nat, value: u64)
    requires k < 11 && k !in f.seen && ValueOk(k, value)
    ensures ParseField(f, KEYS[k], Decimal(value)) == Assign(f, k, value)
  {
    KeyFound(k, 0);
    DecimalParses(value);
  }

  /** A written line parses into its own field. */
  lemma LineParses(f: Fields, k: nat, value: u64)
    requires k < 11 && k !in f.seen && ValueOk(k, value)
    ensures ParseLine(f, LineOf(k, value)) == Assign(f, k, value)
  {
    LineSplitsAtKey(k, value);
    FieldParses(f, k, value);
  }

  lemma LineIsOneLine(k: nat, value: nat, rest: string)
    requires k < 11
    ensures SplitLines(LineOf(k, value) + "\n" + rest) == [LineOf(k, value)] + SplitLines(rest)
  {
    var line := LineOf(k, value);
    KeysArePlain(k);
    assert '\n' !in line;
    FindSkips(line, '\n', rest);
    var text := line + "\n" + rest;
    assert text[..|line|] == line && text[|line| + 1..] == rest;
  }

  /** Having read the first k lines of an encoding. */
  ghost predicate ReadTo(f: Fields, c: Contract, hash: u64, k: nat)
    requires k <= 11
  {
    && f.failure == NoFailure && f.seen == NatsBelow(k)
    && (k > 0 ==> f.contract[..Min(k - 1, 9)] == c[..Min(k - 1, 9)])
    && (k == 11 ==> f.hash == hash)
  }

  lemma FieldPasses(c: Contract, hash: u64, k: nat)
    requires k < 11
    ensures ValueOk(k, FieldOf(c, hash, k))
  {
  }

  lemma PrefixGrows(a: seq<u64>, c: seq<u64>, k: nat)
    requires k < |a| && k < |c| && a[..k] == c[..k]
    ensures a[k := c[k]][..k + 1] == c[..k + 1]
  {
    assert c[..k + 1] == c[..k] + [c[k]];
    assert a[k := c[k]][..k + 1] == a[..k] + [c[k]];
  }

  lemma ReadStep(f: Fields, c: Contract, hash: u64, k: nat)
    requires k < 11 && ReadTo(f, c, hash, k)
    ensures k !in f.seen && ValueOk(k, FieldOf(c, hash, k))
    ensures ReadTo(Assign(f, k, FieldOf(c, hash, k)), c, hash, k + 1)
  {
    hide ValueOk;
    hide NatsBelow;
    FieldPasses(c, hash, k);
    assert f.seen + {k} == NatsBelow(k + 1);
    if 0 < k < 10 {
      PrefixGrows(f.contract, c, k - 1);
      assert Assign(f, k, FieldOf(c, hash, k)).contract == f.contract[k - 1 := c[k - 1]];
    }
  }

  lemma {:induction false} EncodingDecodes(f: Fields, c: Contract, hash: u64, k: nat)
    requires k <= 11 && ReadTo(f, c, hash, k)
    ensures ReadTo(DecodeLines(f, SplitLines(EncodedFrom(c, hash, k))), c, hash, 11)
    decreases 11 - k
  {
    if k < 11 {
      var value, rest := FieldOf(c, hash, k), EncodedFrom(c, hash, k + 1);
      ReadStep(f, c, hash, k);
      EncodingDecodes(Assign(f, k, value), c, hash, k + 1);
      LineParses(f, k, value);
      LineIsOneLine(k, value, rest);
      DecodeNext(f, LineOf(k, value), SplitLines(rest));
    }
  }

  lemma HeaderSplits(rest: string)
    ensures HasHeader(HEADER + rest) && (HEADER + rest)[|HEADER|..] == rest
  {
  }

  lemma FinishAccepts(f: Fields, c: Contract)
    requires Valid(c) && ReadTo(f, c, HashContract(c), 11)
    ensures Finish(f).failure == NoFailure && Finish(f).contract == c
  {
    assert f.contract == f.contract[..9] && c == c[..9];
  }

  /** A strict 64-bit floating-point contract has this hash. */
  lemma KnownContractHash()
    ensures HashContract([6, 4, 0, 0, 0, 0, 3, 0, 0]) == 14337942912644298094
  {
    assert [13, 1, 0, 0, 0] + [6, 4, 0, 0, 0, 0, 3, 0, 0] == [13, 1, 0, 0, 0, 6, 4, 0, 0, 0, 0, 3, 0, 0];
    Fnv.KnownHash([13, 1, 0, 0, 0, 6, 4, 0, 0, 0, 0, 3, 0, 0]);
  }

  /** A header, and a line for each key and its value. */
  function Written(header: string, entries: seq<(string, nat)>): string {
    if entries == [] then header
    else
      var last := entries[|entries| - 1];
      Written(header, entries[..|entries| - 1]) + (last.0 + "=" + Decimal(last.1) + "\n")
  }

  /** What each key holds. */
  function Entries(c: Contract, hash: u64): (r: seq<(string, nat)>)
    ensures |r| == 11
  {
    [("schema", 1), ("domain", c[0]), ("arithmetic", c[1]), ("authority", c[2]), ("determinism", c[3]),
     ("integer_bits", c[4]), ("fraction_bits", c[5]), ("rounding", c[6]), ("overflow", c[7]),
     ("approximation", c[8]), ("hash", hash)]
  }

  lemma EntryIsField(c: Contract, hash: u64, k: nat)
    requires k < 11
    ensures Entries(c, hash)[k] == (KEYS[k], FieldOf(c, hash, k))
  {
  }

  /** What is written, line by line. */
  lemma {:induction false} EncodingReads(c: Contract, hash: u64, k: nat)
    requires k <= 11
    ensures EncodedTo(c, hash, k) == Written("rund.numeric.evidence\n", Entries(c, hash)[..k])
  {
    hide Entries;
    hide Decimal;
    hide FieldOf;
    if k > 0 {
      EncodingReads(c, hash, k - 1);
      EntryIsField(c, hash, k - 1);
      assert Entries(c, hash)[..k][..k - 1] == Entries(c, hash)[..k - 1];
    }
  }

  /** Decoding an encoding of a valid contract gives the contract back. */
  lemma RoundTrip(c: Contract)
    requires Valid(c)
    ensures var decoded := DecodedOf(EncodedTo(c, HashContract(c), 11));
            decoded.failure == NoFailure && decoded.contract == c
  {
    var hash := HashContract(c);
    EncodedParts(c, hash, 11);
    HeaderSplits(EncodedFrom(c, hash, 0));
    EncodingDecodes(START, c, hash, 0);
    FinishAccepts(DecodeLines(START, SplitLines(EncodedFrom(c, hash, 0))), c);
    assert EncodedTo(c, hash, 11) + "" == EncodedTo(c, hash, 11);
  }

  // ------------------------------------------------------- what is accepted, and why

  datatype Entry = Unreadable | Entry(key: nat, value: u64)

  /** What a line says, whatever came before it. */
  function EntryOf(line: string): (e: Entry)
    ensures e.Entry? ==> e.key < 11 && ValueOk(e.key, e.value)
  {
    var equals := Find(line, '=');
    if line == "" || equals == |line| || equals == 0 || equals + 1 == |line| then Unreadable
    else
      var k, value := KeyIndex(line[..equals]), ParseUnsigned(line[equals + 1..]);
      if k.None? || value.None? || !ValueOk(k.value, value.value) then Unreadable else Entry(k.value, value.value)
  }

  /** A line is taken exactly when it is readable and its key is new. */
  lemma LineTaken(f: Fields, line: string)
    requires f.failure == NoFailure
    ensures var e := EntryOf(line);
            if e.Entry? && e.key !in f.seen then ParseLine(f, line) == Assign(f, e.key, e.value)
            else ParseLine(f, line).failure != NoFailure
  {
  }

  function EntriesOf(lines: seq<string>): (r: seq<Entry>)
    ensures |r| == |lines|
    decreases |lines|
  {
    if lines == [] then [] else [EntryOf(lines[0])] + EntriesOf(lines[1..])
  }

  function Count(entries: seq<Entry>, k: int): nat
    decreases |entries|
  {
    if entries == [] then 0
    else Count(entries[1..], k) + if entries[0].Entry? && entries[0].key == k then 1 else 0
  }

  /** The value of the first entry for a key. */
  function ValueFor(entries: seq<Entry>, k: int): u64
    decreases |entries|
  {
    if entries == [] then 0
    else if entries[0].Entry? && entries[0].key == k then entries[0].value
    else ValueFor(entries[1..], k)
  }

  ghost predicate Takes(entries: seq<Entry>, seen: set<int>) {
    && (forall i :: 0 <= i < |entries| ==>
          entries[i].Entry? && entries[i].key < 11 && ValueOk(entries[i].key, entries[i].value))
    && (forall k: int :: Count(entries, k) + (if k in seen then 1 else 0) <= 1)
  }

  /** What is stored for a key. */
  function Stored(f: Fields, k: int): u64 {
    if 1 <= k <= 9 then f.contract[k - 1] else if k == 10 then f.hash else 0
  }

  ghost predicate Gathers(f: Fields, entries: seq<Entry>, g: Fields) {
    && g.failure == NoFailure
    && (forall k: int :: k in g.seen <==> k in f.seen || Count(entries, k) > 0)
    && (forall k: int :: 1 <= k <= 10 ==>
          Stored(g, k) == if Count(entries, k) > 0 then ValueFor(entries, k) else Stored(f, k))
  }

  lemma TakesFirst(e: Entry, rest: seq<Entry>, seen: set<int>)
    requires e.Entry? ==> e.key < 11 && ValueOk(e.key, e.value)
    ensures Takes([e] + rest, seen) <==> e.Entry? && e.key !in seen && Takes(rest, seen + {e.key})
  {
    var entries := [e] + rest;
    assert entries[1..] == rest;
    forall k: int | true
      ensures Count(entries, k) == Count(rest, k) + if e.Entry? && e.key == k then 1 else 0
    {
    }
    if e.Entry? && e.key !in seen && Takes(rest, seen + {e.key}) {
      assert forall i :: 0 < i < |entries| ==> entries[i] == rest[i - 1];
    }
    if Takes(entries, seen) {
      assert entries[0] == e && Count(entries, e.key) + (if e.key in seen then 1 else 0) <= 1;
      assert forall i :: 0 <= i < |rest| ==> rest[i] == entries[i + 1];
    }
  }

  lemma GathersFirst(f: Fields, e: Entry, rest: seq<Entry>, g: Fields)
    requires e.Entry? && e.key < 11 && ValueOk(e.key, e.value) && e.key !in f.seen && Takes(rest, f.seen + {e.key})
    requires Gathers(Assign(f, e.key, e.value), rest, g)
    ensures Gathers(f, [e] + rest, g)
  {
    var entries, next := [e] + rest, Assign(f, e.key, e.value);
    assert entries[1..] == rest;
    assert Count(rest, e.key) + 1 <= 1;
    forall k: int | true
      ensures Count(entries, k) == Count(rest, k) + if e.key == k then 1 else 0
      ensures ValueFor(entries, k) == if e.key == k then e.value else ValueFor(rest, k)
      ensures 1 <= k <= 10 ==> Stored(next, k) == if e.key == k then e.value else Stored(f, k)
    {
    }
  }

  /** Decoding succeeds exactly when every line is readable and every key is new, and
      then stores the value of each line under its key. */
  lemma {:induction false} DecodeGathers(f: Fields, lines: seq<string>)
    requires f.failure == NoFailure
    ensures DecodeLines(f, lines).failure == NoFailure <==> Takes(EntriesOf(lines), f.seen)
    ensures Takes(EntriesOf(lines), f.seen) ==> Gathers(f, EntriesOf(lines), DecodeLines(f, lines))
    decreases |lines|
  {
    if lines != [] {
      var e, rest := EntryOf(lines[0]), EntriesOf(lines[1..]);
      LineTaken(f, lines[0]);
      TakesFirst(e, rest, f.seen);
      if e.Entry? && e.key !in f.seen {
        DecodeGathers(Assign(f, e.key, e.value), lines[1..]);
        if Takes(rest, f.seen + {e.key}) {
          GathersFirst(f, e, rest, DecodeLines(f, lines));
        }
      }
    }
  }

  function ByteFrom(value: u64): u8 {
    if value < 256 then value else 0
  }

  function ContractFrom(entries: seq<Entry>): Contract {
    seq(9, i requires 0 <= i < 9 => ByteFrom(ValueFor(entries, i + 1)))
  }

  /** Every line readable, every one of the eleven keys exactly once. */
  ghost predicate Complete(entries: seq<Entry>) {
    && (forall i :: 0 <= i < |entries| ==> entries[i].Entry?)
    && (forall k: int :: 0 <= k < 11 ==> Count(entries, k) == 1)
  }

  lemma {:induction false} EntriesAt(lines: seq<string>, i: nat)
    requires i < |lines|
    ensures EntriesOf(lines)[i] == EntryOf(lines[i])
    decreases |lines|
  {
    if i > 0 {
      EntriesAt(lines[1..], i - 1);
    }
  }

  ghost predicate Readable(entries: seq<Entry>) {
    forall i :: 0 <= i < |entries| && entries[i].Entry? ==>
                  entries[i].key < 11 && ValueOk(entries[i].key, entries[i].value)
  }

  lemma EntriesReadable(lines: seq<string>)
    ensures Readable(EntriesOf(lines))
  {
    forall i | 0 <= i < |lines|
      ensures EntriesOf(lines)[i] == EntryOf(lines[i])
    {
      EntriesAt(lines, i);
    }
  }

  lemma {:induction false} CountOutside(entries: seq<Entry>, k: int)
    requires Readable(entries) && (k < 0 || k >= 11)
    ensures Count(entries, k) == 0
    decreases |entries|
  {
    if entries != [] {
      CountOutside(entries[1..], k);
    }
  }

  lemma {:induction false} ValuePasses(entries: seq<Entry>, k: nat)
    requires Readable(entries) && Count(entries, k) > 0
    ensures ValueOk(k, ValueFor(entries, k))
    decreases |entries|
  {
    if !(entries[0].Entry? && entries[0].key == k) {
      ValuePasses(entries[1..], k);
    }
  }

  lemma CompleteIsTaken(entries: seq<Entry>)
    requires Readable(entries) && Complete(entries)
    ensures Takes(entries, {})
  {
    forall k: int | true
      ensures Count(entries, k) <= 1
    {
      if k < 0 || k >= 11 {
        CountOutside(entries, k);
      }
    }
  }

  lemma CompleteGathersAll(entries: seq<Entry>, g: Fields)
    requires Readable(entries) && Complete(entries) && (Takes(entries, {}) ==> Gathers(START, entries, g))
    ensures Takes(entries, {}) && g.seen == NatsBelow(11)
  {
    hide Count;
    CompleteIsTaken(entries);
    forall k: int | true
      ensures k in g.seen <==> 0 <= k < 11
    {
      if k < 0 || k >= 11 {
        CountOutside(entries, k);
      }
    }
  }

  /** Taking every line and seeing every key is having each key exactly once. */
  lemma CompleteIff(entries: seq<Entry>, g: Fields)
    requires Readable(entries) && (Takes(entries, {}) ==> Gathers(START, entries, g))
    ensures Complete(entries) <==> Takes(entries, {}) && g.seen == NatsBelow(11)
  {
    hide Count;
    if Complete(entries) {
      CompleteGathersAll(entries, g);
    }
    if Takes(entries, {}) && g.seen == NatsBelow(11) {
      forall k: int | 0 <= k < 11
        ensures Count(entries, k) == 1
      {
        assert k in g.seen && Count(entries, k) + (if k in {} then 1 else 0) <= 1;
      }
    }
  }

  lemma GatheredContract(entries: seq<Entry>, g: Fields)
    requires Readable(entries) && Complete(entries) && Gathers(START, entries, g)
    ensures g.contract == ContractFrom(entries) && g.hash == ValueFor(entries, 10)
  {
    assert Count(entries, 10) == 1 && Stored(g, 10) == ValueFor(entries, 10);
    forall i | 0 <= i < 9
      ensures g.contract[i] == ByteFrom(ValueFor(entries, i + 1))
    {
      assert Count(entries, i + 1) == 1 && Stored(g, i + 1) == ValueFor(entries, i + 1);
      ValuePasses(entries, i + 1);
    }
  }

  /** The lines below the header, as entries. */
  function BodyOf(text: string): seq<Entry>
    requires HasHeader(text)
  {
    EntriesOf(SplitLines(text[|HEADER|..]))
  }

  /** What a text must be to be accepted. */
  ghost predicate Acceptable(entries: seq<Entry>) {
    && Complete(entries) && Valid(ContractFrom(entries))
    && ValueFor(entries, 10) == HashContract(ContractFrom(entries))
  }

  /** A text is accepted exactly when, under the header, each of the eleven keys occurs
      once with a passing value and nothing else does, the contract is valid and the
      hash is its own. */
  lemma AcceptedIff(text: string)
    ensures DecodedOf(text).failure == NoFailure <==> HasHeader(text) && Acceptable(BodyOf(text))
    ensures DecodedOf(text).failure == NoFailure ==> DecodedOf(text).contract == ContractFrom(BodyOf(text))
  {
    if HasHeader(text) {
      var lines := SplitLines(text[|HEADER|..]);
      var g := DecodeLines(START, lines);
      DecodeGathers(START, lines);
      EntriesReadable(lines);
      CompleteIff(EntriesOf(lines), g);
      if Complete(EntriesOf(lines)) {
        GatheredContract(EntriesOf(lines), g);
      }
    }
  }

  // ----------------------------------------------------------------- order of lines

  lemma {:induction false} CountSplits(a: seq<Entry>, b: seq<Entry>, k: int)
    ensures Count(a + b, k) == Count(a, k) + Count(b, k)
    decreases |a|
  {
    if a == [] {
      assert a + b == b;
    } else {
      assert (a + b)[1..] == a[1..] + b;
      CountSplits(a[1..], b, k);
    }
  }

  lemma {:induction false} EntriesSplit(a: seq<string>, b: seq<string>)
    ensures EntriesOf(a + b) == EntriesOf(a) + EntriesOf(b)
    decreases |a|
  {
    if a == [] {
      assert a + b == b;
    } else {
      assert (a + b)[1..] == a[1..] + b;
      EntriesSplit(a[1..], b);
    }
  }

  lemma RemoveOne<T>(a: seq<T>, b: seq<T>, j: nat)
    requires multiset(a) == multiset(b) && a != [] && j < |b| && b[j] == a[0]
    ensures multiset(a[1..]) == multiset(b[..j] + b[j + 1..])
  {
    assert a == [a[0]] + a[1..];
    assert b == b[..j] + ([b[j]] + b[j + 1..]);
    assert multiset(b) == multiset(b[..j]) + (multiset{a[0]} + multiset(b[j + 1..]));
    assert multiset(a) == multiset{a[0]} + multiset(a[1..]);
    assert multiset(b[..j] + b[j + 1..]) == multiset(b[..j]) + multiset(b[j + 1..]);
    assert multiset(a[1..]) == multiset(a) - multiset{a[0]};
  }

  lemma {:induction false} CountIgnoresOrder(a: seq<string>, b: seq<string>, k: int)
    requires multiset(a) == multiset(b)
    ensures Count(EntriesOf(a), k) == Count(EntriesOf(b), k)
    decreases |a|
  {
    if a == [] {
      assert |b| == |multiset(b)| == |multiset(a)| == 0;
    } else {
      assert a[0] in multiset(b);
      var j :| 0 <= j < |b| && b[j] == a[0];
      RemoveOne(a, b, j);
      CountIgnoresOrder(a[1..], b[..j] + b[j + 1..], k);
      CountOneMore(b, j, k);
    }
  }

  lemma CountOneMore(b: seq<string>, j: nat, k: int)
    requires j < |b|
    ensures Count(EntriesOf(b), k)
         == Count(EntriesOf(b[..j] + b[j + 1..]), k) + if EntryOf(b[j]).Entry? && EntryOf(b[j]).key == k then 1 else 0
  {
    var front, one, back := b[..j], [b[j]], b[j + 1..];
    assert b == front + (one + back);
    EntriesSplit(front, one + back);
    EntriesSplit(one, back);
    EntriesSplit(front, back);
    assert EntriesOf(one) == [EntryOf(b[j])];
    CountSplits(EntriesOf(front), EntriesOf(one) + EntriesOf(back), k);
    CountSplits(EntriesOf(one), EntriesOf(back), k);
    CountSplits(EntriesOf(front), EntriesOf(back), k);
  }

  lemma {:induction false} SomeEntry(entries: seq<Entry>, k: int) returns (i: nat)
    requires Count(entries, k) > 0
    ensures i < |entries| && entries[i].Entry? && entries[i].key == k
    decreases |entries|
  {
    if entries[0].Entry? && entries[0].key == k {
      i := 0;
    } else {
      var j := SomeEntry(entries[1..], k);
      i := j + 1;
    }
  }

  lemma {:induction false} Occurs(entries: seq<Entry>, i: nat)
    requires i < |entries| && entries[i].Entry?
    ensures Count(entries, entries[i].key) > 0
    decreases i
  {
    if i > 0 {
      Occurs(entries[1..], i - 1);
    }
  }

  lemma {:induction false} OnlyValue(entries: seq<Entry>, i: nat)
    requires i < |entries| && entries[i].Entry? && Count(entries, entries[i].key) == 1
    ensures ValueFor(entries, entries[i].key) == entries[i].value
    decreases i
  {
    if i > 0 {
      Occurs(entries[1..], i - 1);
      OnlyValue(entries[1..], i - 1);
    }
  }

  lemma ValueIgnoresOrder(a: seq<string>, b: seq<string>, k: int)
    requires multiset(a) == multiset(b) && Count(EntriesOf(a), k) == 1
    ensures ValueFor(EntriesOf(a), k) == ValueFor(EntriesOf(b), k)
  {
    CountIgnoresOrder(a, b, k);
    var i := SomeEntry(EntriesOf(a), k);
    assert a[i] in multiset(b);
    var j :| 0 <= j < |b| && b[j] == a[i];
    EntriesAt(a, i);
    EntriesAt(b, j);
    OnlyValue(EntriesOf(a), i);
    OnlyValue(EntriesOf(b), j);
  }

  lemma CompleteIgnoresOrder(a: seq<string>, b: seq<string>)
    requires multiset(a) == multiset(b) && Complete(EntriesOf(a))
    ensures Complete(EntriesOf(b)) && ContractFrom(EntriesOf(b)) == ContractFrom(EntriesOf(a))
    ensures ValueFor(EntriesOf(b), 10) == ValueFor(EntriesOf(a), 10)
  {
    forall j | 0 <= j < |b|
      ensures EntriesOf(b)[j].Entry?
    {
      assert b[j] in multiset(a);
      var i :| 0 <= i < |a| && a[i] == b[j];
      EntriesAt(a, i);
      EntriesAt(b, j);
    }
    forall k: int | 0 <= k < 11
      ensures Count(EntriesOf(b), k) == 1 && ValueFor(EntriesOf(a), k) == ValueFor(EntriesOf(b), k)
    {
      CountIgnoresOrder(a, b, k);
      ValueIgnoresOrder(a, b, k);
    }
  }

  /** Rearranging the lines of an accepted text changes nothing. */
  lemma LineOrderIsIrrelevant(s: string, t: string)
    requires HasHeader(s) && HasHeader(t)
    requires multiset(SplitLines(s[|HEADER|..])) == multiset(SplitLines(t[|HEADER|..]))
    requires DecodedOf(s).failure == NoFailure
    ensures DecodedOf(t).failure == NoFailure && DecodedOf(t).contract == DecodedOf(s).contract
  {
    AcceptedIff(s);
    AcceptedIff(t);
    CompleteIgnoresOrder(SplitLines(s[|HEADER|..]), SplitLines(t[|HEADER|..]));
  }

  // ------------------------------------------------------------------ what the hash sees

  /** Changing one field of a contract always changes its hash. */
  lemma OneFieldShowsInHash(c: Contract, d: Contract, k: nat)
    requires k < 9 && c[k] != d[k] && forall i :: 0 <= i < 9 && i != k ==> c[i] == d[i]
    ensures HashContract(c) != HashContract(d)
  {
    var head: seq<u8> := [13, 1, 0, 0, 0];
    assert (head + c)[5 + k] == c[k] && (head + d)[5 + k] == d[k];
    forall i | 0 <= i < 14 && i != 5 + k
      ensures (head + c)[i] == (head + d)[i]
    {
    }
    Fnv.OneByteAlwaysShows(Fnv.OFFSET, head + c, head + d, 5 + k);
  }

  /** Two accepted texts whose contracts differ in just one field have different hash
      lines: a single altered field cannot pass under the old hash. */
  lemma AlteredFieldNeedsNewHash(s: string, t: string, k: nat)
    requires DecodedOf(s).failure == NoFailure && DecodedOf(t).failure == NoFailure && k < 9
    requires DecodedOf(s).contract[k] != DecodedOf(t).contract[k]
    requires forall i :: 0 <= i < 9 && i != k ==> DecodedOf(s).contract[i] == DecodedOf(t).contract[i]
    ensures HasHeader(s) && HasHeader(t) && ValueFor(BodyOf(s), 10) != ValueFor(BodyOf(t), 10)
  {
    AcceptedIff(s);
    AcceptedIff(t);
    OneFieldShowsInHash(DecodedOf(s).contract, DecodedOf(t).contract, k);
  }
}
