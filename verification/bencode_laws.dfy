/** Decoding undoes encoding, encodings are prefix-free, and rewriting the announce address keeps the
    bytes of an entry exactly when they were canonical. */
module BencodeLaws {
  import opened Common
  import opened ByteStrings
  import opened Decimals
  import opened Bencode

  /** `s` stands in `data` from position `i` on. */
  predicate StandsAt(data: Bytes, i: nat, s: Bytes) {
    i + |s| <= |data| && data[i..i + |s|] == s
  }

  lemma StandsSplit(data: Bytes, i: nat, a: Bytes, b: Bytes)
    requires StandsAt(data, i, a + b)
    ensures StandsAt(data, i, a) && StandsAt(data, i + |a|, b)
  {
    var s := data[i..i + |a + b|];
    assert data[i..i + |a|] == s[..|a|] && data[i + |a|..i + |a| + |b|] == s[|a|..];
  }

  lemma StandsByte(data: Bytes, i: nat, s: Bytes, k: nat)
    requires StandsAt(data, i, s) && k < |s|
    ensures data[i + k] == s[k]
  {
    assert data[i..i + |s|][k] == data[i + k];
  }

  lemma FindAfter(data: Bytes, i: nat, s: Bytes, c: Byte)
    requires StandsAt(data, i, s + [c]) && c !in s
    ensures Find(data, c, i) == Some(i + |s|)
  {
    FindIs(data, c, i);
    StandsByte(data, i, s + [c], |s|);
    forall k | i <= k < i + |s|
      ensures data[k] != c
    {
      StandsByte(data, i, s + [c], k - i);
      assert s[k - i] in s;
    }
  }

  lemma EncodedHead(v: Value)
    ensures Encode(v) != [] && Encode(v)[0] != LOWER_E
  {
    if v.Str? {
      ParseDigitsOf(|v.bytes|);
      assert Digits(|v.bytes|)[0] in Digits(|v.bytes|);
    }
  }

  // What stands where.

  lemma StrParts(data: Bytes, i: nat, s: Bytes)
    requires StandsAt(data, i, EncodeStr(s))
    ensures var digits := Digits(|s|);
            && |EncodeStr(s)| == |digits| + 1 + |s|
            && StandsAt(data, i, digits) && StandsAt(data, i, digits + [COLON]) && StandsAt(data, i + |digits| + 1, s)
  {
    var digits := Digits(|s|);
    StandsSplit(data, i, digits + [COLON], s);
    StandsSplit(data, i, digits, [COLON]);
  }

  lemma BracketParts(data: Bytes, i: nat, open: Byte, body: Bytes)
    requires StandsAt(data, i, [open] + body + [LOWER_E])
    ensures data[i] == open && StandsAt(data, i + 1, body) && StandsAt(data, i + 1 + |body|, [LOWER_E])
  {
    StandsByte(data, i, [open] + body + [LOWER_E], 0);
    StandsSplit(data, i, [open] + body, [LOWER_E]);
    StandsSplit(data, i, [open], body);
  }

  // Decoding what stands there.

  ghost predicate Decodes(data: Bytes, i: nat, v: Value, next: nat) {
    DecodeAt(data, i) == Ok(Parsed(v, next))
  }

  lemma DecodeStrAt(data: Bytes, i: nat, colon: nat, s: Bytes)
    requires i < colon < |data| && IsDigit(data[i]) && Find(data, COLON, i) == Some(colon)
    requires ParseInt(data[i..colon]) == Some(|s|)
    requires colon + 1 + |s| <= |data| && data[colon + 1..colon + 1 + |s|] == s
    ensures Decodes(data, i, Str(s), colon + 1 + |s|)
  {
  }

  lemma DigitsHead(n: nat)
    ensures |Digits(n)| > 0 && IsDigit(Digits(n)[0]) && COLON !in Digits(n)
  {
    ParseDigitsOf(n);
    assert Digits(n)[0] in Digits(n);
  }

  lemma FindColon(data: Bytes, i: nat, digits: Bytes)
    requires |digits| > 0 && IsDigit(digits[0]) && COLON !in digits && StandsAt(data, i, digits + [COLON])
    ensures i + |digits| < |data| && IsDigit(data[i]) && Find(data, COLON, i) == Some(i + |digits|)
  {
    StandsByte(data, i, digits + [COLON], 0);
    FindAfter(data, i, digits, COLON);
  }

  lemma StrColon(data: Bytes, i: nat, s: Bytes, colon: nat)
    requires StandsAt(data, i, EncodeStr(s)) && colon == i + |Digits(|s|)|
    ensures i < colon < |data| && IsDigit(data[i]) && Find(data, COLON, i) == Some(colon)
  {
    DigitsHead(|s|);
    StrParts(data, i, s);
    FindColon(data, i, Digits(|s|));
  }

  lemma StrLength(data: Bytes, i: nat, s: Bytes, colon: nat)
    requires StandsAt(data, i, EncodeStr(s)) && colon == i + |Digits(|s|)|
    ensures colon <= |data| && ParseInt(data[i..colon]) == Some(|s|)
  {
    StrParts(data, i, s);
    ParseDecimal(|s|);
  }

  lemma StrBody(data: Bytes, i: nat, s: Bytes, colon: nat)
    requires StandsAt(data, i, EncodeStr(s)) && colon == i + |Digits(|s|)|
    ensures colon + 1 + |s| <= |data| && data[colon + 1..colon + 1 + |s|] == s
    ensures colon + 1 + |s| == i + |EncodeStr(s)|
  {
    StrParts(data, i, s);
  }

  lemma DecodeEncodedStr(data: Bytes, i: nat, s: Bytes)
    requires StandsAt(data, i, EncodeStr(s))
    ensures Decodes(data, i, Str(s), i + |EncodeStr(s)|)
  {
    var colon := i + |Digits(|s|)|;
    StrColon(data, i, s, colon);
    StrLength(data, i, s, colon);
    StrBody(data, i, s, colon);
    DecodeStrAt(data, i, colon, s);
  }

  lemma DecodeIntAt(data: Bytes, i: nat, end: nat, n: int)
    requires i < |data| && data[i] == LOWER_I && Find(data, LOWER_E, i) == Some(end)
    requires i + 1 <= end < |data| && ParseInt(data[i + 1..end]) == Some(n)
    ensures Decodes(data, i, Int(n), end + 1)
  {
  }

  lemma IntParts(data: Bytes, i: nat, n: int) returns (end: nat)
    requires StandsAt(data, i, Encode(Int(n)))
    ensures i + 1 <= end < |data| && data[i] == LOWER_I && Find(data, LOWER_E, i) == Some(end)
    ensures data[i + 1..end] == Decimal(n) && end + 1 == i + |Encode(Int(n))|
  {
    var digits := Decimal(n);
    assert LOWER_E !in [LOWER_I] + digits by {
      DecimalBytes(n);
    }
    StandsByte(data, i, Encode(Int(n)), 0);
    FindAfter(data, i, [LOWER_I] + digits, LOWER_E);
    StandsSplit(data, i, [LOWER_I] + digits, [LOWER_E]);
    StandsSplit(data, i, [LOWER_I], digits);
    end := i + 1 + |digits|;
  }

  lemma DecodeEncodedInt(data: Bytes, i: nat, n: int)
    requires StandsAt(data, i, Encode(Int(n)))
    ensures Decodes(data, i, Int(n), i + |Encode(Int(n))|)
  {
    var end := IntParts(data, i, n);
    ParseDecimal(n);
    DecodeIntAt(data, i, end, n);
  }

  /** Wherever an encoding stands, decoding there yields the value and the position behind it. */
  lemma {:induction false} DecodeEncoded(data: Bytes, i: nat, v: Value)
    requires StandsAt(data, i, Encode(v))
    ensures Decodes(data, i, v, i + |Encode(v)|)
    decreases v, 2, 0
  {
    match v
    case Int(n) => DecodeEncodedInt(data, i, n);
    case Str(s) => DecodeEncodedStr(data, i, s);
    case List(items) => DecodeEncodedList(data, i, v);
    case Dict(_) => DecodeEncodedDict(data, i, v);
  }

  lemma {:induction false} DecodeEncodedList(data: Bytes, i: nat, v: Value)
    requires v.List? && StandsAt(data, i, Encode(v))
    ensures Decodes(data, i, v, i + |Encode(v)|)
    decreases v, 1, 0
  {
    var end := ListParts(data, i, v);
    DecodeEncodedItems(data, i + 1, v, 0, end);
    ListEnd(data, i, v, end);
  }

  lemma ListParts(data: Bytes, i: nat, v: Value) returns (end: nat)
    requires v.List? && StandsAt(data, i, Encode(v))
    ensures i < |data| && data[i] == LOWER_L
    ensures StandsAt(data, i + 1, EncodeItems(v, 0)) && end == i + 1 + |EncodeItems(v, 0)|
    ensures EndsAt(data, end) && end + 1 == i + |Encode(v)|
  {
    assert Encode(v) == [LOWER_L] + EncodeItems(v, 0) + [LOWER_E];
    BracketParts(data, i, LOWER_L, EncodeItems(v, 0));
    end := i + 1 + |EncodeItems(v, 0)|;
  }

  lemma ListEnd(data: Bytes, i: nat, v: Value, end: nat)
    requires v.List? && i < |data| && data[i] == LOWER_L && EndsAt(data, end)
    requires DecodeItems(data, i + 1, v.items[..0]) == DecodeItems(data, end, v.items)
    ensures Decodes(data, i, v, end + 1)
  {
    assert v.items[..0] == [];
  }

  lemma {:induction false} DecodeEncodedDict(data: Bytes, i: nat, v: Value)
    requires v.Dict? && StandsAt(data, i, Encode(v))
    ensures Decodes(data, i, v, i + |Encode(v)|)
    decreases v, 1, 0
  {
    var ks := KeysOf(v);
    var end := DictParts(data, i, v, ks);
    DecodeDictInOrder(data, i, v, ks, end);
  }

  /** A dictionary has all the keys of `ks`. */
  predicate KnownKeys(v: Value, ks: seq<Bytes>)
    requires v.Dict?
    decreases |ks|
  {
    |ks| == 0 || (ks[0] in v.entries && KnownKeys(v, ks[1..]))
  }

  lemma {:induction false} KnownIs(v: Value, ks: seq<Bytes>)
    requires v.Dict?
    ensures KnownKeys(v, ks) <==> forall k | k in ks :: k in v.entries
    decreases |ks|
  {
    if |ks| > 0 {
      KnownIs(v, ks[1..]);
      assert ks == [ks[0]] + ks[1..];
    }
  }

  lemma KeysOf(v: Value) returns (ks: seq<Bytes>)
    requires v.Dict?
    ensures ks == SortedKeys(v.entries.Keys)
    ensures KnownKeys(v, ks) && Added(map[], v, ks) == v.entries && (forall k | k in v.entries :: k in ks)
    ensures Encode(v) == [LOWER_D] + EncodeEntries(v, ks) + [LOWER_E]
  {
    ks := SortedKeys(v.entries.Keys);
    SortedKeysAscend(v.entries.Keys);
    KnownIs(v, ks);
    AddedAll(v, ks);
  }

  lemma DictParts(data: Bytes, i: nat, v: Value, ks: seq<Bytes>) returns (end: nat)
    requires v.Dict? && Encode(v) == [LOWER_D] + EncodeEntries(v, ks) + [LOWER_E] && StandsAt(data, i, Encode(v))
    ensures i < |data| && data[i] == LOWER_D
    ensures StandsAt(data, i + 1, EncodeEntries(v, ks)) && end == i + 1 + |EncodeEntries(v, ks)|
    ensures EndsAt(data, end) && end + 1 == i + |Encode(v)|
  {
    BracketParts(data, i, LOWER_D, EncodeEntries(v, ks));
    end := i + 1 + |EncodeEntries(v, ks)|;
  }

  /** Any order of the keys would decode to the same dictionary. */
  lemma {:induction false} DecodeDictInOrder(data: Bytes, i: nat, v: Value, ks: seq<Bytes>, end: nat)
    requires v.Dict? && KnownKeys(v, ks) && Added(map[], v, ks) == v.entries
    requires i < |data| && data[i] == LOWER_D && EndsAt(data, end)
    requires StandsAt(data, i + 1, EncodeEntries(v, ks)) && end == i + 1 + |EncodeEntries(v, ks)|
    ensures Decodes(data, i, v, end + 1)
    decreases v, 0, |ks| + 1
  {
    DecodeEncodedEntries(data, i + 1, v, ks, map[], end);
    DictEnd(data, i, v, end);
  }

  lemma DictEnd(data: Bytes, i: nat, v: Value, end: nat)
    requires v.Dict? && i < |data| && data[i] == LOWER_D && EndsAt(data, end)
    requires DecodeEntries(data, i + 1, map[]) == DecodeEntries(data, end, v.entries)
    ensures Decodes(data, i, v, end + 1)
  {
  }

  lemma ItemsStep(data: Bytes, i: nat, items: seq<Value>, item: Value, next: nat)
    requires !EndsAt(data, i) && Decodes(data, i, item, next)
    ensures DecodeItems(data, i, items) == DecodeItems(data, next, items + [item])
  {
  }

  lemma EntriesStep(data: Bytes, i: nat, entries: map<Bytes, Value>, key: Bytes, middle: nat, val: Value, next: nat)
    requires !EndsAt(data, i) && Decodes(data, i, Str(key), middle) && Decodes(data, middle, val, next)
    ensures DecodeEntries(data, i, entries) == DecodeEntries(data, next, entries[key := val])
  {
  }

  lemma FirstKey(data: Bytes, i: nat, key: Bytes, behind: Bytes) returns (middle: nat)
    requires StandsAt(data, i, EncodeStr(key) + behind)
    ensures !EndsAt(data, i) && Decodes(data, i, Str(key), middle) && StandsAt(data, middle, behind)
    ensures middle + |behind| == i + |EncodeStr(key) + behind|
  {
    ValueAndRest(data, i, EncodeStr(key), behind);
    middle := i + |EncodeStr(key)|;
    DecodeEncodedStr(data, i, key);
    StrNotEnd(data, i, key);
  }

  lemma StrNotEnd(data: Bytes, i: nat, s: Bytes)
    requires StandsAt(data, i, EncodeStr(s))
    ensures !EndsAt(data, i)
  {
    StrColon(data, i, s, i + |Digits(|s|)|);
  }

  lemma {:induction false} FirstValue(data: Bytes, i: nat, v: Value, behind: Bytes) returns (next: nat)
    requires StandsAt(data, i, Encode(v) + behind)
    ensures !EndsAt(data, i) && Decodes(data, i, v, next) && StandsAt(data, next, behind)
    ensures next + |behind| == i + |Encode(v) + behind| && Slice(data, i, next) == Encode(v)
    decreases v, 3, 0
  {
    ValueAndRest(data, i, Encode(v), behind);
    next := i + |Encode(v)|;
    assert Decodes(data, i, v, next) by {
      DecodeEncoded(data, i, v);
    }
    assert !EndsAt(data, i) by {
      ValueNotEnd(data, i, v);
    }
  }

  lemma ValueAndRest(data: Bytes, i: nat, value: Bytes, behind: Bytes)
    requires StandsAt(data, i, value + behind)
    ensures StandsAt(data, i, value) && StandsAt(data, i + |value|, behind)
    ensures i + |value| + |behind| == i + |value + behind| && Slice(data, i, i + |value|) == value
  {
    StandsSplit(data, i, value, behind);
  }

  lemma ValueNotEnd(data: Bytes, i: nat, v: Value)
    requires StandsAt(data, i, Encode(v))
    ensures !EndsAt(data, i)
  {
    EncodedHead(v);
    StandsByte(data, i, Encode(v), 0);
  }

  /** The first key and value decode, and the rest stands behind them. */
  lemma {:induction false} FirstEntry(data: Bytes, i: nat, v: Value, ks: seq<Bytes>, end: nat)
    returns (middle: nat, next: nat)
    requires v.Dict? && KnownKeys(v, ks) && ks != []
    requires StandsAt(data, i, EncodeEntries(v, ks)) && end == i + |EncodeEntries(v, ks)|
    ensures !EndsAt(data, i) && Decodes(data, i, Str(ks[0]), middle) && Decodes(data, middle, v.entries[ks[0]], next)
    ensures Slice(data, middle, next) == Encode(v.entries[ks[0]])
    ensures StandsAt(data, next, EncodeEntries(v, ks[1..]))
    ensures end == next + |EncodeEntries(v, ks[1..])|
    decreases v, 0, 0
  {
    middle := FirstKey(data, i, ks[0], Encode(v.entries[ks[0]]) + EncodeEntries(v, ks[1..]));
    next := FirstValue(data, middle, v.entries[ks[0]], EncodeEntries(v, ks[1..]));
  }

  function Slice(data: Bytes, from: nat, to: nat): Bytes {
    if from <= to <= |data| then data[from..to] else []
  }

  lemma {:induction false} FirstItem(data: Bytes, i: nat, v: Value, from: nat, end: nat) returns (next: nat)
    requires v.List? && from < |v.items|
    requires StandsAt(data, i, EncodeItems(v, from)) && end == i + |EncodeItems(v, from)|
    ensures !EndsAt(data, i) && Decodes(data, i, v.items[from], next)
    ensures StandsAt(data, next, EncodeItems(v, from + 1)) && end == next + |EncodeItems(v, from + 1)|
    decreases v, 0, 0
  {
    next := FirstValue(data, i, v.items[from], EncodeItems(v, from + 1));
  }

  lemma {:induction false} DecodeEncodedItems(data: Bytes, i: nat, v: Value, from: nat, end: nat)
    requires v.List? && from <= |v.items|
    requires StandsAt(data, i, EncodeItems(v, from)) && end == i + |EncodeItems(v, from)|
    ensures DecodeItems(data, i, v.items[..from]) == DecodeItems(data, end, v.items)
    decreases v, 0, |v.items| - from
  {
    if from == |v.items| {
      assert v.items[..from] == v.items;
    } else {
      var next := FirstItem(data, i, v, from, end);
      assert v.items[..from + 1] == v.items[..from] + [v.items[from]];
      ItemsStep(data, i, v.items[..from], v.items[from], next);
      DecodeEncodedItems(data, next, v, from + 1, end);
    }
  }

  /** `entries` with the entries of `v` under `ks` added one by one. */
  ghost function Added(entries: map<Bytes, Value>, v: Value, ks: seq<Bytes>): map<Bytes, Value>
    requires v.Dict? && KnownKeys(v, ks)
    decreases |ks|
  {
    if |ks| == 0 then entries else Added(entries[ks[0] := v.entries[ks[0]]], v, ks[1..])
  }

  lemma {:induction false} AddedIs(entries: map<Bytes, Value>, v: Value, ks: seq<Bytes>)
    requires v.Dict? && KnownKeys(v, ks) && forall k | k in ks :: k in v.entries
    ensures forall k :: k in Added(entries, v, ks) <==> k in entries || k in ks
    ensures forall k | k in Added(entries, v, ks) ::
              Added(entries, v, ks)[k] == if k in ks then v.entries[k] else entries[k]
    decreases |ks|
  {
    if ks != [] {
      assert ks == [ks[0]] + ks[1..];
      AddedIs(entries[ks[0] := v.entries[ks[0]]], v, ks[1..]);
    }
  }

  lemma AddedAll(v: Value, ks: seq<Bytes>)
    requires v.Dict? && KnownKeys(v, ks) && (forall k | k in v.entries :: k in ks)
    ensures Added(map[], v, ks) == v.entries
  {
    KnownIs(v, ks);
    AddedIs(map[], v, ks);
  }

  lemma {:induction false} DecodeEncodedEntries(
    data: Bytes, i: nat, v: Value, ks: seq<Bytes>, entries: map<Bytes, Value>, end: nat)
    requires v.Dict? && KnownKeys(v, ks)
    requires StandsAt(data, i, EncodeEntries(v, ks)) && end == i + |EncodeEntries(v, ks)|
    ensures DecodeEntries(data, i, entries) == DecodeEntries(data, end, Added(entries, v, ks))
    decreases v, 0, |ks|
  {
    if |ks| > 0 {
      var middle, next := FirstEntry(data, i, v, ks, end);
      EntriesStep(data, i, entries, ks[0], middle, v.entries[ks[0]], next);
      DecodeEncodedEntries(data, next, v, ks[1..], entries[ks[0] := v.entries[ks[0]]], end);
    }
  }

  /** Round trip, with anything behind it. */
  lemma RoundTrip(v: Value, rest: Bytes)
    ensures DecodeAt(Encode(v) + rest, 0) == Ok(Parsed(v, |Encode(v)|))
    ensures Bdecode(Encode(v)) == Ok(v)
  {
    DecodeEncoded(Encode(v) + rest, 0, v);
    assert Encode(v)[0..|Encode(v)|] == Encode(v);
    DecodeEncoded(Encode(v), 0, v);
  }

  /** No encoding is a prefix of another; in particular encoding is injective. */
  lemma PrefixFree(v: Value, w: Value, a: Bytes, b: Bytes)
    requires Encode(v) + a == Encode(w) + b
    ensures v == w && a == b
  {
    RoundTrip(v, a);
    RoundTrip(w, b);
    assert a == (Encode(v) + a)[|Encode(v)|..] && b == (Encode(w) + b)[|Encode(w)|..];
  }

  ghost predicate IsCanonical(s: Bytes) {
    exists v :: Encode(v) == s
  }

  /** Canonical data decode, and encoding the value again gives the same bytes; other data, if they
      decode, never come back. */
  lemma ReencodeExactlyCanonical(s: Bytes)
    ensures IsCanonical(s) <==> Bdecode(s).Ok? && Encode(Bdecode(s).value) == s
  {
    if IsCanonical(s) {
      var v :| Encode(v) == s;
      RoundTrip(v, []);
    }
  }

  // Entries as they stand in the data.

  /** The bytes of the value under `key` in a dictionary whose entries start at `i`: those of its
      last occurrence, which is the one that counts. */
  function RawEntry(data: Bytes, i: nat, key: Bytes, raw: Option<Bytes>): Option<Bytes>
    decreases Left(data, i)
  {
    if EndsAt(data, i) then raw
    else
      match DecodeAt(data, i)
      case Err(_) => raw
      case Ok(k) =>
        match DecodeAt(data, k.next)
        case Err(_) => raw
        case Ok(val) =>
          RawEntry(data, val.next, key, if k.value == Str(key) then Some(Slice(data, k.next, val.next)) else raw)
  }

  lemma RawStep(data: Bytes, i: nat, key: Bytes, raw: Option<Bytes>, name: Bytes, middle: nat, val: Value, next: nat)
    requires !EndsAt(data, i) && Decodes(data, i, Str(name), middle) && Decodes(data, middle, val, next)
    ensures RawEntry(data, i, key, raw) ==
            RawEntry(data, next, key, if name == key then Some(Slice(data, middle, next)) else raw)
  {
  }

  /** The bytes of a root dictionary's entry. */
  function RawOf(data: Bytes, key: Bytes): Option<Bytes> {
    RawEntry(data, 1, key, None)
  }

  /** Decoding those bytes' position gave the entry's value. */
  ghost predicate Backs(data: Bytes, raw: Option<Bytes>, key: Bytes, entries: map<Bytes, Value>) {
    && (raw.Some? <==> key in entries)
    && (raw.Some? ==> StandsFor(data, raw.value, entries[key]))
  }

  ghost predicate StandsFor(data: Bytes, raw: Bytes, v: Value) {
    exists at: nat :: StandsAt(data, at, raw) && Decodes(data, at, v, at + |raw|)
  }

  lemma {:induction false} DecodedInside(data: Bytes, i: nat, entries: map<Bytes, Value>)
    requires DecodeEntries(data, i, entries).Ok?
    ensures i < |data| && DecodeEntries(data, i, entries).value.next <= |data|
    decreases Left(data, i)
  {
    if !EndsAt(data, i) {
      var k := DecodeAt(data, i).value;
      var val := DecodeAt(data, k.next).value;
      DecodedInside(data, val.next, entries[k.value.bytes := val.value]);
    }
  }

  lemma {:induction false} RawBacks(data: Bytes, i: nat, key: Bytes, raw: Option<Bytes>, entries: map<Bytes, Value>)
    requires Backs(data, raw, key, entries) && DecodeEntries(data, i, entries).Ok?
    ensures Backs(data, RawEntry(data, i, key, raw), key, DecodeEntries(data, i, entries).value.value)
    decreases Left(data, i)
  {
    if !EndsAt(data, i) {
      var k := DecodeAt(data, i).value;
      var val := DecodeAt(data, k.next).value;
      var name := k.value.bytes;
      var more := entries[name := val.value];
      EntriesStep(data, i, entries, name, k.next, val.value, val.next);
      RawStep(data, i, key, raw, name, k.next, val.value, val.next);
      DecodedInside(data, val.next, more);
      var next := if name == key then Some(Slice(data, k.next, val.next)) else raw;
      BacksStep(data, key, raw, entries, name, k.next, val.value, val.next);
      RawBacks(data, val.next, key, next, more);
    }
  }

  lemma BacksStep(data: Bytes, key: Bytes, raw: Option<Bytes>, entries: map<Bytes, Value>, name: Bytes,
                  middle: nat, val: Value, next: nat)
    requires Backs(data, raw, key, entries)
    requires Decodes(data, middle, val, next) && middle <= next <= |data|
    ensures Backs(data, if name == key then Some(Slice(data, middle, next)) else raw, key, entries[name := val])
  {
    if name == key {
      SliceStandsFor(data, middle, val, next);
    }
  }

  lemma SliceStandsFor(data: Bytes, from: nat, v: Value, to: nat)
    requires Decodes(data, from, v, to) && from <= to <= |data|
    ensures StandsFor(data, Slice(data, from, to), v)
  {
    SliceStands(data, from, to);
    assert Decodes(data, from, v, from + |Slice(data, from, to)|);
  }

  lemma SliceStands(data: Bytes, from: nat, to: nat)
    requires from <= to <= |data|
    ensures StandsAt(data, from, Slice(data, from, to)) && from + |Slice(data, from, to)| == to
  {
  }

  /** Each entry's value is what its bytes decode to. */
  lemma RawDecodes(data: Bytes, key: Bytes)
    requires Bdecode(data).Ok? && Bdecode(data).value.Dict?
    ensures Backs(data, RawOf(data, key), key, Bdecode(data).value.entries)
  {
    RawBacks(data, 1, key, None, map[]);
  }

  /** In an encoding every entry stands canonically. */
  lemma RawOfEncoded(v: Value, key: Bytes)
    requires v.Dict? && key in v.entries
    ensures RawOf(Encode(v), key) == Some(Encode(v.entries[key]))
  {
    var data := Encode(v);
    var ks := KeysOf(v);
    assert data[0..|data|] == data;
    var end := DictParts(data, 0, v, ks);
    RawOfEntries(data, 1, v, ks, key, None, end);
  }

  lemma InFirstOrRest(ks: seq<Bytes>, key: Bytes)
    requires ks != []
    ensures key in ks <==> key == ks[0] || key in ks[1..]
  {
    assert ks == [ks[0]] + ks[1..];
  }

  lemma {:induction false} RawOfEntries(
    data: Bytes, i: nat, v: Value, ks: seq<Bytes>, key: Bytes, raw: Option<Bytes>, end: nat)
    requires v.Dict? && KnownKeys(v, ks) && key in v.entries
    requires StandsAt(data, i, EncodeEntries(v, ks)) && end == i + |EncodeEntries(v, ks)|
    requires EndsAt(data, end)
    ensures RawEntry(data, i, key, raw) == if key in ks then Some(Encode(v.entries[key])) else raw
    decreases |ks|
  {
    if |ks| > 0 {
      InFirstOrRest(ks, key);
      var val := Encode(v.entries[ks[0]]);
      var more := if ks[0] == key then Some(val) else raw;
      var middle, next := FirstEntry(data, i, v, ks, end);
      assert RawEntry(data, i, key, raw) == RawEntry(data, next, key, more) by {
        RawStep(data, i, key, raw, ks[0], middle, v.entries[ks[0]], next);
      }
      RawOfEntries(data, next, v, ks[1..], key, more, end);
    }
  }

  // Rewriting.

  /** A rewritten torrent has the new address and every other entry's value. */
  lemma RewriteDecodes(data: Bytes, url: Bytes)
    ensures Bdecode(data).Ok? && Bdecode(data).value.Dict? <==> RewriteAnnounce(data, url).Rewritten?
    ensures RewriteAnnounce(data, url).Rewritten? ==>
              Bdecode(RewriteAnnounce(data, url).bytes) ==
              Ok(Dict(NormalizedAnnounce(Bdecode(data).value.entries, url)))
  {
    if RewriteAnnounce(data, url).Rewritten? {
      RoundTrip(Dict(NormalizedAnnounce(Bdecode(data).value.entries, url)), []);
    }
  }

  /** Only the last rewrite counts. */
  lemma RewriteTwice(data: Bytes, first: Bytes, second: Bytes)
    requires RewriteAnnounce(data, first).Rewritten?
    ensures RewriteAnnounce(RewriteAnnounce(data, first).bytes, second) == RewriteAnnounce(data, second)
  {
    RewriteDecodes(data, first);
    var entries := Bdecode(data).value.entries;
    assert NormalizedAnnounce(NormalizedAnnounce(entries, first), second) == NormalizedAnnounce(entries, second);
  }

  lemma CanonicalHere(data: Bytes, at: nat, raw: Bytes, v: Value)
    requires StandsAt(data, at, raw) && Decodes(data, at, v, at + |raw|)
    ensures IsCanonical(raw) <==> Encode(v) == raw
  {
    if IsCanonical(raw) {
      var w :| Encode(w) == raw;
      DecodeEncoded(data, at, w);
    }
  }

  lemma BackedCanonical(data: Bytes, raw: Bytes, key: Bytes, entries: map<Bytes, Value>)
    requires Backs(data, Some(raw), key, entries)
    ensures key in entries && (IsCanonical(raw) <==> Encode(entries[key]) == raw)
  {
    var at: nat :| StandsAt(data, at, raw) && Decodes(data, at, entries[key], at + |raw|);
    CanonicalHere(data, at, raw, entries[key]);
  }

  /** An entry's bytes are canonical exactly if they are the encoding of its value. */
  lemma RawCanonical(data: Bytes, key: Bytes)
    requires Bdecode(data).Ok? && Bdecode(data).value.Dict? && key in Bdecode(data).value.entries
    ensures RawOf(data, key).Some?
    ensures IsCanonical(RawOf(data, key).value) <==> Encode(Bdecode(data).value.entries[key]) == RawOf(data, key).value
  {
    RawDecodes(data, key);
    BackedCanonical(data, RawOf(data, key).value, key, Bdecode(data).value.entries);
  }

  lemma RawAfterRewrite(data: Bytes, url: Bytes, key: Bytes)
    requires RewriteAnnounce(data, url).Rewritten? && key in Bdecode(data).value.entries
    requires key != ANNOUNCE && key != ANNOUNCE_LIST
    ensures RawOf(RewriteAnnounce(data, url).bytes, key) == Some(Encode(Bdecode(data).value.entries[key]))
  {
    RawOfEncoded(Dict(NormalizedAnnounce(Bdecode(data).value.entries, url)), key);
  }

  /** The bytes of an entry other than the announce ones - `info`, whose hash names the torrent -
      survive the rewrite exactly if they were canonical. */
  lemma EntryKeptExactlyIfCanonical(data: Bytes, url: Bytes, key: Bytes)
    requires RewriteAnnounce(data, url).Rewritten?
    requires key != ANNOUNCE && key != ANNOUNCE_LIST
    requires key in Bdecode(data).value.entries
    ensures RawOf(data, key).Some?
    ensures RawOf(RewriteAnnounce(data, url).bytes, key) == RawOf(data, key) <==> IsCanonical(RawOf(data, key).value)
  {
    RawAfterRewrite(data, url, key);
    RawCanonical(data, key);
  }

  // d4:infoi07ee and its info entry i07e.
  const PADDED: Bytes := [100, 52, 58, 105, 110, 102, 111, 105, 48, 55, 101, 101]
  const PADDED_INFO: Bytes := [105, 48, 55, 101]

  lemma PaddedInt(data: Bytes, i: nat)
    requires StandsAt(data, i, PADDED_INFO)
    ensures Decodes(data, i, Int(7), i + 4)
  {
    StandsByte(data, i, PADDED_INFO, 0);
    FindAfter(data, i, [105, 48, 55], LOWER_E);
    StandsSplit(data, i, [105] + [48, 55], [101]);
    StandsSplit(data, i, [105], [48, 55]);
    var s: Bytes := [48, 55];
    assert s[..1] == [48] && ParseDigits([48]) == Some(0);
    assert ParseInt(s) == Some(7);
  }

  /** A torrent whose `info` bytes the rewrite changes. */
  lemma PaddedInfoChanges(url: Bytes)
    ensures RewriteAnnounce(PADDED, url).Rewritten?
    ensures RawOf(PADDED, INFO) == Some(PADDED_INFO)
    ensures RawOf(RewriteAnnounce(PADDED, url).bytes, INFO) != RawOf(PADDED, INFO)
  {
    PaddedDecodes();
    PaddedNotCanonical();
    RewriteDecodes(PADDED, url);
    EntryKeptExactlyIfCanonical(PADDED, url, INFO);
  }

  lemma PaddedNotCanonical()
    ensures !IsCanonical(PADDED_INFO)
  {
    assert PADDED_INFO[0..4] == PADDED_INFO;
    PaddedInt(PADDED_INFO, 0);
    assert Encode(Int(7)) == [105, 55, 101];
    ReencodeExactlyCanonical(PADDED_INFO);
  }

  lemma PaddedParts()
    ensures !EndsAt(PADDED, 1) && Decodes(PADDED, 1, Str(INFO), 7) && Decodes(PADDED, 7, Int(7), 11)
  {
    assert Digits(4) == [52];
    assert PADDED[1..7] == EncodeStr(INFO);
    DecodeEncodedStr(PADDED, 1, INFO);
    assert PADDED[7..11] == PADDED_INFO;
    PaddedInt(PADDED, 7);
  }

  lemma PaddedDecodes()
    ensures Bdecode(PADDED) == Ok(Dict(map[INFO := Int(7)]))
    ensures RawOf(PADDED, INFO) == Some(PADDED_INFO)
  {
    PaddedParts();
    var entries := map[INFO := Int(7)];
    assert EndsAt(PADDED, 11);
    EntriesStep(PADDED, 1, map[], INFO, 7, Int(7), 11);
    DictEnd(PADDED, 0, Dict(entries), 11);
    assert Slice(PADDED, 7, 11) == PADDED_INFO;
    RawStep(PADDED, 1, INFO, None, INFO, 7, Int(7), 11);
  }
}
