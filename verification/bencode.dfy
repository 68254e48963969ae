/** The bencode codec of the torrent generator: a printer that sorts dictionary keys, and a lenient
    parser that threads an offset through the data (the "bencoding" section of BEP 3). */
module Bencode {
  import opened Common
  import opened ByteStrings
  import opened Decimals

  datatype Value =
    | Int(n: int)
    | Str(bytes: Bytes)
    | List(items: seq<Value>)
    | Dict(entries: map<Bytes, Value>)

  datatype Error =
    | UnexpectedEnd
    | InvalidInt
    | InvalidBytes
    | KeyNotBytes
    | UnsupportedMarker
    | BadNumber
    | TrailingData

  datatype Result<+T> = Ok(value: T) | Err(error: Error)

  const COLON: Byte := 58
  const LOWER_D: Byte := 100
  const LOWER_E: Byte := 101
  const LOWER_I: Byte := 105
  const LOWER_L: Byte := 108

  // Keys in order.

  predicate IsLeast(keys: set<Bytes>, k: Bytes) {
    k in keys && forall j | j in keys && j != k :: Less(k, j)
  }

  lemma {:induction false} LeastExists(keys: set<Bytes>)
    requires keys != {}
    ensures exists k :: IsLeast(keys, k)
    decreases keys
  {
    var some :| some in keys;
    if keys == {some} {
      assert IsLeast(keys, some);
    } else {
      LeastExists(keys - {some});
      var k :| IsLeast(keys - {some}, k);
      LessOrder(keys, some, k);
    }
  }

  lemma LessOrder(keys: set<Bytes>, some: Bytes, k: Bytes)
    requires some in keys && IsLeast(keys - {some}, k)
    ensures if Less(some, k) then IsLeast(keys, some) else IsLeast(keys, k)
  {
    if Less(some, k) {
      forall j | j in keys && j != some
        ensures Less(some, j)
      {
        if j != k {
          LessTransitive(some, k, j);
        }
      }
    } else {
      LessTotal(some, k);
    }
  }

  lemma LeastUnique(keys: set<Bytes>, a: Bytes, b: Bytes)
    requires IsLeast(keys, a) && IsLeast(keys, b)
    ensures a == b
  {
    if a != b {
      LessAsymmetric(a, b);
    }
  }

  ghost function Least(keys: set<Bytes>): (k: Bytes)
    requires keys != {}
    ensures IsLeast(keys, k)
  {
    LeastExists(keys);
    var k :| IsLeast(keys, k);
    k
  }

  ghost function SortedKeys(keys: set<Bytes>): seq<Bytes> {
    if keys == {} then [] else [Least(keys)] + SortedKeys(keys - {Least(keys)})
  }

  /** The keys, each once, in strictly ascending order. */
  lemma {:induction false} SortedKeysAscend(keys: set<Bytes>)
    ensures forall k :: k in SortedKeys(keys) <==> k in keys
    ensures forall i, j | 0 <= i < j < |SortedKeys(keys)| :: Less(SortedKeys(keys)[i], SortedKeys(keys)[j])
    decreases keys
  {
    if keys != {} {
      var k := Least(keys);
      var rest := SortedKeys(keys - {k});
      SortedKeysAscend(keys - {k});
      assert SortedKeys(keys) == [k] + rest;
      forall j | 0 <= j < |rest|
        ensures Less(k, rest[j])
      {
        assert rest[j] in rest;
      }
    }
  }

  // Printing.

  function EncodeStr(s: Bytes): Bytes {
    Digits(|s|) + [COLON] + s
  }

  ghost function Encode(v: Value): Bytes
    decreases v, 1, 0
  {
    match v
    case Int(n) => [LOWER_I] + Decimal(n) + [LOWER_E]
    case Str(s) => EncodeStr(s)
    case List(items) => [LOWER_L] + EncodeItems(v, 0) + [LOWER_E]
    case Dict(entries) => [LOWER_D] + EncodeEntries(v, SortedKeys(entries.Keys)) + [LOWER_E]
  }

  /** The items of a list from the `from`-th on. */
  ghost function EncodeItems(v: Value, from: nat): Bytes
    requires v.List? && from <= |v.items|
    decreases v, 0, |v.items| - from
  {
    if from == |v.items| then [] else Encode(v.items[from]) + EncodeItems(v, from + 1)
  }

  /** The entries of a dictionary under those of the keys `ks` it has, in that order. */
  ghost function EncodeEntries(v: Value, ks: seq<Bytes>): Bytes
    requires v.Dict?
    decreases v, 0, |ks|
  {
    if |ks| == 0 then []
    else if ks[0] !in v.entries then EncodeEntries(v, ks[1..])
    else EncodeStr(ks[0]) + (Encode(v.entries[ks[0]]) + EncodeEntries(v, ks[1..]))
  }

  // Parsing.

  /** The first position of `c` at or after `i`. */
  function Find(data: Bytes, c: Byte, i: nat): Option<nat>
    decreases |data| - i
  {
    if i >= |data| then None else if data[i] == c then Some(i) else Find(data, c, i + 1)
  }

  datatype Parsed<+T> = Parsed(value: T, next: nat)

  predicate EndsAt(data: Bytes, i: nat) {
    i < |data| && data[i] == LOWER_E
  }

  function Left(data: Bytes, i: nat): nat {
    if i < |data| then |data| - i else 0
  }

  /** A length may promise more bytes than there are: the value is cut short and the next position
      lies beyond the data. */
  function DecodeStr(data: Bytes, i: nat): (r: Result<Parsed<Value>>)
    requires i < |data| && IsDigit(data[i])
    ensures r.Ok? ==> r.value.next > i
  {
    match Find(data, COLON, i)
    case None => Err(InvalidBytes)
    case Some(colon) =>
      FindIs(data, COLON, i);
      match ParseInt(data[i..colon])
      case None => Err(BadNumber)
      case Some(size) =>
        LeadingDigit(data[i..colon]);
        var start := colon + 1;
        var end := start + size;
        Ok(Parsed(Str(data[start..Min(end, |data|)]), end))
  }

  function DecodeInt(data: Bytes, i: nat): (r: Result<Parsed<Value>>)
    requires i < |data| && data[i] == LOWER_I
    ensures r.Ok? ==> r.value.next > i
  {
    match Find(data, LOWER_E, i)
    case None => Err(InvalidInt)
    case Some(end) =>
      FindIs(data, LOWER_E, i);
      match ParseInt(data[i + 1..end])
      case None => Err(BadNumber)
      case Some(n) => Ok(Parsed(Int(n), end + 1))
  }

  function DecodeAt(data: Bytes, i: nat): (r: Result<Parsed<Value>>)
    ensures r.Ok? ==> i < |data| && r.value.next > i
    decreases Left(data, i), 0
  {
    if i >= |data| then Err(UnexpectedEnd)
    else if data[i] == LOWER_I then DecodeInt(data, i)
    else if data[i] == LOWER_L then
      match DecodeItems(data, i + 1, [])
      case Err(e) => Err(e)
      case Ok(p) => Ok(Parsed(List(p.value), p.next))
    else if data[i] == LOWER_D then
      match DecodeEntries(data, i + 1, map[])
      case Err(e) => Err(e)
      case Ok(p) => Ok(Parsed(Dict(p.value), p.next))
    else if IsDigit(data[i]) then DecodeStr(data, i)
    else Err(UnsupportedMarker)
  }

  function DecodeItems(data: Bytes, i: nat, items: seq<Value>): (r: Result<Parsed<seq<Value>>>)
    ensures r.Ok? ==> r.value.next > i
    decreases Left(data, i), 1
  {
    if EndsAt(data, i) then Ok(Parsed(items, i + 1))
    else
      match DecodeAt(data, i)
      case Err(e) => Err(e)
      case Ok(item) => DecodeItems(data, item.next, items + [item.value])
  }

  /** A repeated key keeps its last value. */
  function DecodeEntries(data: Bytes, i: nat, entries: map<Bytes, Value>): (r: Result<Parsed<map<Bytes, Value>>>)
    ensures r.Ok? ==> r.value.next > i
    decreases Left(data, i), 1
  {
    if EndsAt(data, i) then Ok(Parsed(entries, i + 1))
    else
      match DecodeAt(data, i)
      case Err(e) => Err(e)
      case Ok(key) =>
        if !key.value.Str? then Err(KeyNotBytes)
        else
          match DecodeAt(data, key.next)
          case Err(e) => Err(e)
          case Ok(val) => DecodeEntries(data, val.next, entries[key.value.bytes := val.value])
  }

  function Bdecode(data: Bytes): Result<Value> {
    match DecodeAt(data, 0)
    case Err(e) => Err(e)
    case Ok(p) => if p.next != |data| then Err(TrailingData) else Ok(p.value)
  }

  lemma {:induction false} FindIs(data: Bytes, c: Byte, i: nat)
    ensures match Find(data, c, i)
            case None => forall k | i <= k < |data| :: data[k] != c
            case Some(at) => i <= at < |data| && data[at] == c && forall k | i <= k < at :: data[k] != c
    decreases |data| - i
  {
    if i < |data| && data[i] != c {
      FindIs(data, c, i + 1);
    }
  }

  // Rewriting the announce address.

  const ANNOUNCE: Bytes := [97, 110, 110, 111, 117, 110, 99, 101]
  const ANNOUNCE_LIST: Bytes := [97, 110, 110, 111, 117, 110, 99, 101, 45, 108, 105, 115, 116]
  const INFO: Bytes := [105, 110, 102, 111]

  function NormalizedAnnounce(entries: map<Bytes, Value>, url: Bytes): map<Bytes, Value> {
    entries[ANNOUNCE := Str(url)][ANNOUNCE_LIST := List([List([Str(url)])])]
  }

  datatype Rewrite = Rewritten(bytes: Bytes) | NotADict | Undecodable(error: Error)

  ghost function RewriteAnnounce(data: Bytes, url: Bytes): Rewrite {
    match Bdecode(data)
    case Err(e) => Undecodable(e)
    case Ok(v) => if v.Dict? then Rewritten(Encode(Dict(NormalizedAnnounce(v.entries, url)))) else NotADict
  }
}
