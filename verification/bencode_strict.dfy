/** The strict grammar of bencoded data, read off the bytes alone, and why it describes exactly what
    the printer prints. */
module BencodeStrict {
  import opened Common
  import opened ByteStrings
  import opened Decimals
  import opened Bencode
  import opened BencodeLaws

  const DIGIT_ZERO: Byte := 48

  // Numbers: no sign but a minus, no leading zero, no minus zero, no space, no underscore.

  predicate StrictNat(s: Bytes) {
    |s| > 0 && (forall i | 0 <= i < |s| :: IsDigit(s[i])) && (|s| == 1 || s[0] != DIGIT_ZERO)
  }

  predicate StrictInt(s: Bytes) {
    StrictNat(s) || (|s| > 1 && s[0] == MINUS && StrictNat(s[1..]) && s[1] != DIGIT_ZERO)
  }

  lemma {:induction false} DigitsAreStrict(n: nat)
    ensures StrictNat(Digits(n)) && (n > 0 ==> Digits(n)[0] != DIGIT_ZERO)
  {
    if n >= 10 {
      DigitsAreStrict(n / 10);
    }
  }

  lemma {:induction false} StrictNatPrints(s: Bytes)
    requires StrictNat(s)
    ensures ParseDigits(s).Some? && Digits(ParseDigits(s).value) == s
    ensures s[0] != DIGIT_ZERO ==> ParseDigits(s).value > 0
    decreases |s|
  {
    if |s| > 1 {
      var front := s[..|s| - 1];
      StrictNatPrints(front);
      assert s == front + [s[|s| - 1]];
    }
  }

  lemma NoTrim(s: Bytes)
    requires |s| > 0 && !IsSpace(s[0]) && !IsSpace(s[|s| - 1])
    ensures ParseInt(s) == ParseSigned(s)
  {
    assert TrimLeft(s) == s && TrimRight(s) == s;
  }

  lemma StrictNatReads(s: Bytes)
    requires StrictNat(s)
    ensures ParseInt(s).Some? && ParseInt(s).value >= 0 && Digits(ParseInt(s).value) == s
  {
    NoTrim(s);
    StrictNatPrints(s);
  }

  lemma StrictIntReads(s: Bytes)
    requires StrictInt(s)
    ensures ParseInt(s).Some? && Decimal(ParseInt(s).value) == s
  {
    if StrictNat(s) {
      StrictNatReads(s);
    } else {
      NoTrim(s);
      StrictNatPrints(s[1..]);
      assert s == [MINUS] + s[1..];
    }
  }

  lemma DecimalIsStrict(n: int)
    ensures StrictInt(Decimal(n))
  {
    DigitsAreStrict(if n < 0 then -n else n);
    if n < 0 {
      assert Decimal(n)[1..] == Digits(-n);
    }
  }

  // Values: strings of full length, lists, dictionaries with strictly ascending keys.

  function StrictStr(data: Bytes, i: nat): (r: Option<Parsed<Bytes>>)
    ensures r.Some? ==> i < r.value.next <= |data|
  {
    match Find(data, COLON, i)
    case None => None
    case Some(colon) =>
      FindIs(data, COLON, i);
      if !StrictNat(data[i..colon]) || ParseDigits(data[i..colon]).None? then None
      else
        var end := colon + 1 + ParseDigits(data[i..colon]).value;
        if end > |data| then None else Some(Parsed(data[colon + 1..end], end))
  }

  /** Where the strict value at `i` ends, if one stands there. */
  function StrictEnd(data: Bytes, i: nat): (r: Option<nat>)
    ensures r.Some? ==> i < r.value <= |data|
    decreases Left(data, i), 0
  {
    if i >= |data| then None
    else if data[i] == LOWER_I then
      match Find(data, LOWER_E, i)
      case None => None
      case Some(end) =>
        FindIs(data, LOWER_E, i);
        if StrictInt(data[i + 1..end]) then Some(end + 1) else None
    else if data[i] == LOWER_L then StrictItems(data, i + 1)
    else if data[i] == LOWER_D then StrictEntries(data, i + 1, None)
    else
      match StrictStr(data, i)
      case None => None
      case Some(s) => Some(s.next)
  }

  function StrictItems(data: Bytes, i: nat): (r: Option<nat>)
    ensures r.Some? ==> i < r.value <= |data|
    decreases Left(data, i), 1
  {
    if EndsAt(data, i) then Some(i + 1)
    else
      match StrictEnd(data, i)
      case None => None
      case Some(next) => StrictItems(data, next)
  }

  function StrictEntries(data: Bytes, i: nat, last: Option<Bytes>): (r: Option<nat>)
    ensures r.Some? ==> i < r.value <= |data|
    decreases Left(data, i), 1
  {
    if EndsAt(data, i) then Some(i + 1)
    else
      match StrictStr(data, i)
      case None => None
      case Some(key) =>
        if last.Some? && !Less(last.value, key.value) then None
        else
          match StrictEnd(data, key.next)
          case None => None
          case Some(next) => StrictEntries(data, next, Some(key.value))
  }

  /** The data are one strict value. */
  predicate Strict(s: Bytes) {
    StrictEnd(s, 0) == Some(|s|)
  }

  // What the printer prints is strict.

  lemma EncodedStrIsStrict(data: Bytes, i: nat, s: Bytes)
    requires StandsAt(data, i, EncodeStr(s))
    ensures StrictStr(data, i) == Some(Parsed(s, i + |EncodeStr(s)|))
    ensures i < |data| && IsDigit(data[i])
  {
    var colon := i + |Digits(|s|)|;
    StrColon(data, i, s, colon);
    StrParts(data, i, s);
    StrBody(data, i, s, colon);
    DigitsAreStrict(|s|);
    ParseDigitsOf(|s|);
    assert data[i..colon] == Digits(|s|);
  }

  lemma EncodedIntIsStrict(data: Bytes, i: nat, n: int)
    requires StandsAt(data, i, Encode(Int(n)))
    ensures StrictEnd(data, i) == Some(i + |Encode(Int(n))|)
  {
    var end := IntParts(data, i, n);
    DecimalIsStrict(n);
  }

  lemma {:induction false} EncodedIsStrict(data: Bytes, i: nat, v: Value)
    requires StandsAt(data, i, Encode(v))
    ensures StrictEnd(data, i) == Some(i + |Encode(v)|)
    decreases v, 2, 0
  {
    match v
    case Int(n) => EncodedIntIsStrict(data, i, n);
    case Str(s) => EncodedStrValueIsStrict(data, i, s);
    case List(_) => EncodedListIsStrict(data, i, v);
    case Dict(_) => EncodedDictIsStrict(data, i, v);
  }

  lemma EncodedStrValueIsStrict(data: Bytes, i: nat, s: Bytes)
    requires StandsAt(data, i, EncodeStr(s))
    ensures StrictEnd(data, i) == Some(i + |EncodeStr(s)|)
  {
    EncodedStrIsStrict(data, i, s);
  }

  lemma {:induction false} EncodedListIsStrict(data: Bytes, i: nat, v: Value)
    requires v.List? && StandsAt(data, i, Encode(v))
    ensures StrictEnd(data, i) == Some(i + |Encode(v)|)
    decreases v, 1, 0
  {
    var end := ListParts(data, i, v);
    EncodedItemsAreStrict(data, i + 1, v, 0, end);
    StrictListEnd(data, i, end);
  }

  lemma {:induction false} EncodedDictIsStrict(data: Bytes, i: nat, v: Value)
    requires v.Dict? && StandsAt(data, i, Encode(v))
    ensures StrictEnd(data, i) == Some(i + |Encode(v)|)
    decreases v, 1, 0
  {
    var ks := KeysOf(v);
    SortedAscends(v.entries.Keys, None);
    var end := DictParts(data, i, v, ks);
    AscendingDictIsStrict(data, i, v, ks, end);
  }

  lemma {:induction false} AscendingDictIsStrict(data: Bytes, i: nat, v: Value, ks: seq<Bytes>, end: nat)
    requires v.Dict? && KnownKeys(v, ks) && Ascends(None, ks)
    requires i < |data| && data[i] == LOWER_D && EndsAt(data, end)
    requires StandsAt(data, i + 1, EncodeEntries(v, ks)) && end == i + 1 + |EncodeEntries(v, ks)|
    ensures StrictEnd(data, i) == Some(end + 1)
    decreases v, 0, |ks| + 1
  {
    EncodedEntriesAreStrict(data, i + 1, v, ks, None, end);
    StrictDictEnd(data, i, LastKey(None, ks), end);
  }

  lemma StrictListEnd(data: Bytes, i: nat, end: nat)
    requires i < |data| && data[i] == LOWER_L && EndsAt(data, end)
    requires StrictItems(data, i + 1) == StrictItems(data, end)
    ensures StrictEnd(data, i) == Some(end + 1)
  {
  }

  lemma StrictDictEnd(data: Bytes, i: nat, last: Option<Bytes>, end: nat)
    requires i < |data| && data[i] == LOWER_D && EndsAt(data, end)
    requires StrictEntries(data, i + 1, None) == StrictEntries(data, end, last)
    ensures StrictEnd(data, i) == Some(end + 1)
  {
  }

  lemma StrictItemsStep(data: Bytes, i: nat, next: nat)
    requires !EndsAt(data, i) && StrictEnd(data, i) == Some(next)
    ensures StrictItems(data, i) == StrictItems(data, next)
  {
  }

  lemma {:induction false} EncodedItemsAreStrict(data: Bytes, i: nat, v: Value, from: nat, end: nat)
    requires v.List? && from <= |v.items|
    requires StandsAt(data, i, EncodeItems(v, from)) && end == i + |EncodeItems(v, from)|
    ensures StrictItems(data, i) == StrictItems(data, end)
    decreases v, 0, |v.items| - from
  {
    if from < |v.items| {
      var next := FirstStrictValue(data, i, v.items[from], EncodeItems(v, from + 1));
      StrictItemsStep(data, i, next);
      EncodedItemsAreStrict(data, next, v, from + 1, end);
    }
  }

  /** The keys of `ks` come after `last` in strictly ascending order. */
  predicate Ascends(last: Option<Bytes>, ks: seq<Bytes>)
    decreases |ks|
  {
    |ks| == 0 || ((last.Some? ==> Less(last.value, ks[0])) && Ascends(Some(ks[0]), ks[1..]))
  }

  function LastKey(last: Option<Bytes>, ks: seq<Bytes>): Option<Bytes>
    decreases |ks|
  {
    if |ks| == 0 then last else LastKey(Some(ks[0]), ks[1..])
  }

  lemma {:induction false} SortedAscends(keys: set<Bytes>, last: Option<Bytes>)
    requires last.Some? ==> forall k | k in keys :: Less(last.value, k)
    ensures Ascends(last, SortedKeys(keys))
    decreases keys
  {
    if keys != {} {
      var k := Least(keys);
      var rest := SortedKeys(keys - {k});
      SortedAscends(keys - {k}, Some(k));
      assert SortedKeys(keys) == [k] + rest && ([k] + rest)[1..] == rest;
    }
  }

  lemma StrictEntriesStep(data: Bytes, i: nat, last: Option<Bytes>, key: Bytes, middle: nat, next: nat)
    requires !EndsAt(data, i) && StrictStr(data, i) == Some(Parsed(key, middle))
    requires (last.Some? ==> Less(last.value, key)) && StrictEnd(data, middle) == Some(next)
    ensures StrictEntries(data, i, last) == StrictEntries(data, next, Some(key))
  {
  }

  lemma {:induction false} EncodedEntriesAreStrict(
    data: Bytes, i: nat, v: Value, ks: seq<Bytes>, last: Option<Bytes>, end: nat)
    requires v.Dict? && KnownKeys(v, ks) && Ascends(last, ks)
    requires StandsAt(data, i, EncodeEntries(v, ks)) && end == i + |EncodeEntries(v, ks)|
    ensures StrictEntries(data, i, last) == StrictEntries(data, end, LastKey(last, ks))
    decreases v, 0, |ks|
  {
    if |ks| > 0 {
      var middle, next := FirstStrictEntry(data, i, v, ks, end);
      StrictEntriesStep(data, i, last, ks[0], middle, next);
      EncodedEntriesAreStrict(data, next, v, ks[1..], Some(ks[0]), end);
    }
  }

  lemma {:induction false} FirstStrictEntry(data: Bytes, i: nat, v: Value, ks: seq<Bytes>, end: nat)
    returns (middle: nat, next: nat)
    requires v.Dict? && KnownKeys(v, ks) && |ks| > 0
    requires StandsAt(data, i, EncodeEntries(v, ks)) && end == i + |EncodeEntries(v, ks)|
    ensures !EndsAt(data, i) && StrictStr(data, i) == Some(Parsed(ks[0], middle))
    ensures StrictEnd(data, middle) == Some(next)
    ensures StandsAt(data, next, EncodeEntries(v, ks[1..])) && end == next + |EncodeEntries(v, ks[1..])|
    decreases v, 0, 0
  {
    var val, behind := v.entries[ks[0]], EncodeEntries(v, ks[1..]);
    assert EncodeEntries(v, ks) == EncodeStr(ks[0]) + (Encode(val) + behind);
    middle := FirstStrictKey(data, i, ks[0], Encode(val) + behind);
    next := FirstStrictValue(data, middle, val, behind);
  }

  lemma {:induction false} FirstStrictValue(data: Bytes, i: nat, v: Value, behind: Bytes) returns (next: nat)
    requires StandsAt(data, i, Encode(v) + behind)
    ensures !EndsAt(data, i) && StrictEnd(data, i) == Some(next) && StandsAt(data, next, behind)
    ensures next + |behind| == i + |Encode(v) + behind|
    decreases v, 3, 0
  {
    ValueAndRest(data, i, Encode(v), behind);
    next := i + |Encode(v)|;
    ValueNotEnd(data, i, v);
    EncodedIsStrict(data, i, v);
  }

  lemma FirstStrictKey(data: Bytes, i: nat, key: Bytes, behind: Bytes) returns (middle: nat)
    requires StandsAt(data, i, EncodeStr(key) + behind)
    ensures !EndsAt(data, i) && StrictStr(data, i) == Some(Parsed(key, middle)) && StandsAt(data, middle, behind)
    ensures middle + |behind| == i + |EncodeStr(key) + behind|
  {
    ValueAndRest(data, i, EncodeStr(key), behind);
    middle := i + |EncodeStr(key)|;
    EncodedStrIsStrict(data, i, key);
    StrNotEnd(data, i, key);
  }

  // Strict data are what the printer prints.

  /** The bytes from `i` to `next` are the encoding of what decodes there. */
  ghost predicate Prints(data: Bytes, i: nat, v: Value, next: nat) {
    Decodes(data, i, v, next) && i <= next <= |data| && Encode(v) == data[i..next]
  }

  lemma StrictStrParts(data: Bytes, i: nat) returns (colon: nat)
    requires StrictStr(data, i).Some?
    ensures i < colon < |data| && data[colon] == COLON && Find(data, COLON, i) == Some(colon)
    ensures StrictNat(data[i..colon])
    ensures
      var r := StrictStr(data, i).value;
      && ParseDigits(data[i..colon]) == Some(|r.value|)
      && r.next == colon + 1 + |r.value| <= |data| && data[colon + 1..r.next] == r.value
  {
    colon := Find(data, COLON, i).value;
    FindIs(data, COLON, i);
  }

  lemma StrictNatLength(number: Bytes, n: nat)
    requires StrictNat(number) && ParseDigits(number) == Some(n)
    ensures IsDigit(number[0]) && ParseInt(number) == Some(n) && Digits(n) == number
  {
    StrictNatPrints(number);
    NoTrim(number);
  }

  lemma StrBytes(data: Bytes, i: nat, colon: nat, end: nat)
    requires i <= colon < end <= |data| && data[colon] == COLON
    ensures data[i..end] == data[i..colon] + [COLON] + data[colon + 1..end]
  {
  }

  lemma StrictStrPrints(data: Bytes, i: nat)
    requires i < |data| && StrictStr(data, i).Some?
    ensures IsDigit(data[i])
    ensures Prints(data, i, Str(StrictStr(data, i).value.value), StrictStr(data, i).value.next)
  {
    var s, end := StrictStr(data, i).value.value, StrictStr(data, i).value.next;
    var colon := StrictStrParts(data, i);
    var number := data[i..colon];
    StrictNatLength(number, |s|);
    assert number[0] == data[i];
    DecodeStrAt(data, i, colon, s);
    StrBytes(data, i, colon, end);
  }

  lemma StrictIntPrints(data: Bytes, i: nat) returns (v: Value)
    requires i < |data| && data[i] == LOWER_I && StrictEnd(data, i).Some?
    ensures Prints(data, i, v, StrictEnd(data, i).value)
  {
    var end := Find(data, LOWER_E, i).value;
    FindIs(data, LOWER_E, i);
    StrictIntReads(data[i + 1..end]);
    var n := ParseInt(data[i + 1..end]).value;
    DecodeIntAt(data, i, end, n);
    v := Int(n);
    assert data[i..end + 1] == [LOWER_I] + data[i + 1..end] + [LOWER_E];
  }

  lemma {:induction false} StrictPrints(data: Bytes, i: nat) returns (v: Value)
    requires StrictEnd(data, i).Some?
    ensures Prints(data, i, v, StrictEnd(data, i).value)
    decreases Left(data, i), 0
  {
    if data[i] == LOWER_I {
      v := StrictIntPrints(data, i);
    } else if data[i] == LOWER_L {
      v := StrictListPrints(data, i);
    } else if data[i] == LOWER_D {
      v := StrictDictPrints(data, i);
    } else {
      StrictStrPrints(data, i);
      v := Str(StrictStr(data, i).value.value);
    }
  }

  lemma {:induction false} StrictListPrints(data: Bytes, i: nat) returns (v: Value)
    requires i < |data| && data[i] == LOWER_L && StrictEnd(data, i).Some?
    ensures Prints(data, i, v, StrictEnd(data, i).value)
    decreases Left(data, i), 0, 0
  {
    var end := StrictItems(data, i + 1).value;
    var all := StrictItemsPrint(data, i + 1, []);
    v := List(all);
    Bracketed(data, i, LOWER_L, end);
  }

  /** The items from `i` on follow `items` in a list whose rest prints as these bytes. */
  ghost predicate ItemsPrint(data: Bytes, i: nat, items: seq<Value>, all: seq<Value>, end: nat) {
    && i < end <= |data| && EndsAt(data, end - 1)
    && items <= all
    && DecodeItems(data, i, items) == Ok(Parsed(all, end))
    && EncodeItems(List(all), |items|) == data[i..end - 1]
  }

  lemma ItemsPrintStep(
    data: Bytes, i: nat, items: seq<Value>, item: Value, next: nat, all: seq<Value>, end: nat)
    requires !EndsAt(data, i) && Prints(data, i, item, next) && ItemsPrint(data, next, items + [item], all, end)
    ensures ItemsPrint(data, i, items, all, end)
  {
    ItemsStep(data, i, items, item, next);
    assert all[|items|] == item;
    EncodeItemsStep(all, |items|);
    TwoSlices(data, i, next, end - 1);
  }

  lemma TwoSlices(data: Bytes, i: nat, middle: nat, end: nat)
    requires i <= middle <= end <= |data|
    ensures data[i..end] == data[i..middle] + data[middle..end]
  {
  }

  lemma EncodeItemsStep(all: seq<Value>, from: nat)
    requires from < |all|
    ensures EncodeItems(List(all), from) == Encode(all[from]) + EncodeItems(List(all), from + 1)
  {
  }

  lemma {:induction false} StrictItemsPrint(data: Bytes, i: nat, items: seq<Value>) returns (all: seq<Value>)
    requires StrictItems(data, i).Some?
    ensures ItemsPrint(data, i, items, all, StrictItems(data, i).value)
    decreases Left(data, i), 1
  {
    if EndsAt(data, i) {
      all := items;
    } else {
      var next := StrictEnd(data, i).value;
      var item := StrictPrints(data, i);
      all := StrictItemsPrint(data, next, items + [item]);
      ItemsPrintStep(data, i, items, item, next, all, StrictItems(data, i).value);
    }
  }

  lemma {:induction false} StrictDictPrints(data: Bytes, i: nat) returns (v: Value)
    requires i < |data| && data[i] == LOWER_D && StrictEnd(data, i).Some?
    ensures Prints(data, i, v, StrictEnd(data, i).value)
    decreases Left(data, i), 0, 0
  {
    var all, ks := StrictEntriesPrint(data, i + 1, map[], None);
    v := Dict(all);
    DictPrints(data, i, all, ks, StrictEntries(data, i + 1, None).value);
  }

  /** `all` is `entries` with the keys `ks`, ascending after `last`, added or replaced. */
  ghost predicate AddsKeys(entries: map<Bytes, Value>, last: Option<Bytes>, all: map<Bytes, Value>, ks: seq<Bytes>) {
    && Ascends(last, ks)
    && (forall k :: k in all <==> k in entries || k in ks)
    && (forall k | k in entries && k !in ks :: all[k] == entries[k])
  }

  /** The entries from `i` on come under the keys `ks` and print as these bytes. */
  ghost predicate EntriesPrint(
    data: Bytes, i: nat, entries: map<Bytes, Value>, last: Option<Bytes>,
    all: map<Bytes, Value>, ks: seq<Bytes>, end: nat)
  {
    && i < end <= |data| && EndsAt(data, end - 1)
    && AddsKeys(entries, last, all, ks)
    && DecodeEntries(data, i, entries) == Ok(Parsed(all, end))
    && EncodeEntries(Dict(all), ks) == data[i..end - 1]
  }

  lemma SortedPrints(all: map<Bytes, Value>, ks: seq<Bytes>)
    requires AddsKeys(map[], None, all, ks)
    ensures Encode(Dict(all)) == [LOWER_D] + EncodeEntries(Dict(all), ks) + [LOWER_E]
  {
    AscendingIsSorted(ks, None, all.Keys);
  }

  lemma DictPrints(data: Bytes, i: nat, all: map<Bytes, Value>, ks: seq<Bytes>, end: nat)
    requires i < |data| && data[i] == LOWER_D && EntriesPrint(data, i + 1, map[], None, all, ks, end)
    ensures Prints(data, i, Dict(all), end)
  {
    SortedPrints(all, ks);
    Bracketed(data, i, LOWER_D, end);
  }

  lemma Bracketed(data: Bytes, i: nat, open: Byte, end: nat)
    requires i + 1 < end <= |data| && data[i] == open && EndsAt(data, end - 1)
    ensures data[i..end] == [open] + data[i + 1..end - 1] + [LOWER_E]
  {
  }

  lemma {:induction false} AscendsAfter(last: Bytes, ks: seq<Bytes>, k: Bytes)
    requires Ascends(Some(last), ks) && k in ks
    ensures Less(last, k)
    decreases |ks|
  {
    if k != ks[0] {
      AscendsAfter(ks[0], ks[1..], k);
      LessTransitive(last, ks[0], k);
    }
  }

  lemma AddsKeysStep(
    entries: map<Bytes, Value>, last: Option<Bytes>, key: Bytes, val: Value, all: map<Bytes, Value>, ks: seq<Bytes>)
    requires (last.Some? ==> Less(last.value, key)) && AddsKeys(entries[key := val], Some(key), all, ks)
    ensures AddsKeys(entries, last, all, [key] + ks)
    ensures key in all && all[key] == val
  {
    assert ([key] + ks)[1..] == ks;
    KeyIsNew(key, ks);
  }

  lemma EncodeEntriesStep(all: map<Bytes, Value>, key: Bytes, ks: seq<Bytes>)
    requires key in all
    ensures EncodeEntries(Dict(all), [key] + ks) ==
            EncodeStr(key) + (Encode(all[key]) + EncodeEntries(Dict(all), ks))
  {
    assert ([key] + ks)[1..] == ks;
  }

  lemma SlicesJoin(data: Bytes, i: nat, middle: nat, next: nat, end: nat)
    requires i <= middle <= next <= end <= |data|
    ensures data[i..end] == data[i..middle] + (data[middle..next] + data[next..end])
  {
  }

  lemma EntriesPrintStep(
    data: Bytes, i: nat, entries: map<Bytes, Value>, last: Option<Bytes>, key: Bytes, middle: nat, val: Value,
    next: nat, all: map<Bytes, Value>, ks: seq<Bytes>, end: nat)
    requires !EndsAt(data, i) && (last.Some? ==> Less(last.value, key))
    requires Prints(data, i, Str(key), middle) && Prints(data, middle, val, next)
    requires EntriesPrint(data, next, entries[key := val], Some(key), all, ks, end)
    ensures EntriesPrint(data, i, entries, last, all, [key] + ks, end)
  {
    AddsKeysStep(entries, last, key, val, all, ks);
    EntriesBytesStep(data, i, key, middle, next, all, ks, end - 1);
    EntriesStep(data, i, entries, key, middle, val, next);
  }

  lemma EntriesBytesStep(
    data: Bytes, i: nat, key: Bytes, middle: nat, next: nat, all: map<Bytes, Value>, ks: seq<Bytes>, end: nat)
    requires key in all && i <= middle <= next <= end <= |data|
    requires EncodeStr(key) == data[i..middle] && Encode(all[key]) == data[middle..next]
    requires EncodeEntries(Dict(all), ks) == data[next..end]
    ensures EncodeEntries(Dict(all), [key] + ks) == data[i..end]
  {
    EncodeEntriesStep(all, key, ks);
    SlicesJoin(data, i, middle, next, end);
  }

  lemma KeyIsNew(key: Bytes, ks: seq<Bytes>)
    requires Ascends(Some(key), ks)
    ensures key !in ks
  {
    if key in ks {
      AscendsAfter(key, ks, key);
      LessIrreflexive(key);
    }
  }

  lemma {:induction false} StrictEntriesPrint(data: Bytes, i: nat, entries: map<Bytes, Value>, last: Option<Bytes>)
    returns (all: map<Bytes, Value>, ks: seq<Bytes>)
    requires StrictEntries(data, i, last).Some?
    ensures EntriesPrint(data, i, entries, last, all, ks, StrictEntries(data, i, last).value)
    decreases Left(data, i), 1
  {
    if EndsAt(data, i) {
      all, ks := entries, [];
    } else {
      var key := StrictStr(data, i).value;
      StrictStrPrints(data, i);
      var val := StrictPrints(data, key.next);
      var next := StrictEnd(data, key.next).value;
      all, ks := StrictEntriesPrint(data, next, entries[key.value := val], Some(key.value));
      EntriesPrintStep(data, i, entries, last, key.value, key.next, val, next, all, ks,
                       StrictEntries(data, i, last).value);
      ks := [key.value] + ks;
    }
  }

  /** There is one ascending order of a set of keys. */
  lemma {:induction false} AscendingIsSorted(ks: seq<Bytes>, last: Option<Bytes>, keys: set<Bytes>)
    requires Ascends(last, ks) && forall k :: k in keys <==> k in ks
    ensures ks == SortedKeys(keys)
    decreases |ks|
  {
    if |ks| == 0 {
      assert keys == {};
    } else {
      var rest := ks[1..];
      assert ks == [ks[0]] + rest;
      KeyIsNew(ks[0], rest);
      forall k | k in keys && k != ks[0]
        ensures Less(ks[0], k)
      {
        AscendsAfter(ks[0], rest, k);
      }
      assert IsLeast(keys, ks[0]);
      LeastUnique(keys, ks[0], Least(keys));
      AscendingIsSorted(rest, Some(ks[0]), keys - {ks[0]});
    }
  }

  // The main results.

  /** The grammar describes exactly the encodings. */
  lemma StrictExactlyEncodings(s: Bytes)
    ensures Strict(s) <==> IsCanonical(s)
  {
    if Strict(s) {
      var v := StrictPrints(s, 0);
      assert s[0..|s|] == s;
    }
    if IsCanonical(s) {
      var v :| Encode(v) == s;
      assert s[0..|s|] == s;
      EncodedIsStrict(s, 0, v);
    }
  }

  /** Decoding data and encoding the value again gives the same bytes if and only if the data are
      strict. */
  lemma ReencodeExactlyStrict(s: Bytes)
    ensures Bdecode(s).Ok? && Encode(Bdecode(s).value) == s <==> Strict(s)
  {
    StrictExactlyEncodings(s);
    ReencodeExactlyCanonical(s);
  }

  /** The bytes of an entry other than the announce ones - `info`, whose hash names the torrent -
      survive the rewrite if and only if they are strict. */
  lemma EntryKeptExactlyIfStrict(data: Bytes, url: Bytes, key: Bytes)
    requires RewriteAnnounce(data, url).Rewritten?
    requires key != ANNOUNCE && key != ANNOUNCE_LIST
    requires key in Bdecode(data).value.entries
    ensures RawOf(data, key).Some?
    ensures RawOf(RewriteAnnounce(data, url).bytes, key) == RawOf(data, key) <==> Strict(RawOf(data, key).value)
  {
    EntryKeptExactlyIfCanonical(data, url, key);
    StrictExactlyEncodings(RawOf(data, key).value);
  }
}
