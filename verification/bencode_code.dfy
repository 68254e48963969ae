/** The codec as it runs: a growing buffer for dictionaries, and loops that advance the offset. */
module BencodeCodec {
  import opened Common
  import opened ByteStrings
  import opened Decimals
  import opened Bencode

  lemma SortedStep(sorted: seq<Bytes>, rest: set<Bytes>, k: Bytes)
    requires IsLeast(rest, k)
    ensures sorted + SortedKeys(rest) == (sorted + [k]) + SortedKeys(rest - {k})
  {
    LeastUnique(rest, k, Least(rest));
    assert SortedKeys(rest) == [k] + SortedKeys(rest - {k});
  }

  /** Python's `sorted` on distinct byte strings. */
  method SortKeys(keys: set<Bytes>) returns (sorted: seq<Bytes>)
    ensures sorted == SortedKeys(keys)
  {
    sorted := [];
    var rest := keys;
    assert sorted + SortedKeys(rest) == SortedKeys(keys);
    while rest != {}
      invariant sorted + SortedKeys(rest) == SortedKeys(keys)
      decreases rest
    {
      LeastExists(rest);
      var k :| k in rest && IsLeast(rest, k);
      SortedStep(sorted, rest, k);
      sorted := sorted + [k];
      rest := rest - {k};
    }
    assert sorted + [] == sorted;
  }

  method PrintNat(n: nat) returns (out: Bytes)
    ensures out == Digits(n)
  {
    out := [];
    var left := n;
    while left >= 10
      invariant Digits(left) + out == Digits(n)
    {
      out := [48 + left % 10] + out;
      left := left / 10;
    }
    out := [48 + left] + out;
  }

  method EncodeString(s: Bytes) returns (out: Bytes)
    ensures out == EncodeStr(s)
  {
    out := PrintNat(|s|);
    out := out + [COLON] + s;
  }

  lemma ItemsAppend(v: Value, i: nat, out: Bytes, item: Bytes)
    requires v.List? && i < |v.items| && item == Encode(v.items[i])
    ensures out + EncodeItems(v, i) == (out + item) + EncodeItems(v, i + 1)
  {
  }

  lemma EntriesAppend(v: Value, ks: seq<Bytes>, i: nat, out: Bytes, key: Bytes, val: Bytes)
    requires v.Dict? && (forall k | k in ks :: k in v.entries) && i < |ks|
    requires key == EncodeStr(ks[i]) && val == Encode(v.entries[ks[i]])
    ensures out + EncodeEntries(v, ks[i..]) == (out + key + val) + EncodeEntries(v, ks[i + 1..])
  {
    var rest := EncodeEntries(v, ks[i + 1..]);
    assert ks[i..][1..] == ks[i + 1..];
    assert EncodeEntries(v, ks[i..]) == key + (val + rest);
    assert out + (key + (val + rest)) == (out + key + val) + rest;
  }

  method EncodeValue(v: Value) returns (out: Bytes)
    ensures out == Encode(v)
    decreases v
  {
    match v
    case Int(n) =>
      out := PrintNat(if n < 0 then -n else n);
      out := [LOWER_I] + (if n < 0 then [MINUS] + out else out) + [LOWER_E];
    case Str(s) =>
      out := EncodeString(s);
    case List(items) =>
      out := [];
      assert out + EncodeItems(v, 0) == EncodeItems(v, 0);
      for i := 0 to |items|
        invariant out + EncodeItems(v, i) == EncodeItems(v, 0)
      {
        var item := EncodeValue(items[i]);
        ItemsAppend(v, i, out, item);
        out := out + item;
      }
      assert out + [] == out;
      out := [LOWER_L] + out + [LOWER_E];
    case Dict(entries) =>
      out := EncodeEach(v);
      out := [LOWER_D] + out + [LOWER_E];
  }

  method EncodeEach(v: Value) returns (out: Bytes)
    requires v.Dict?
    ensures out == EncodeEntries(v, SortedKeys(v.entries.Keys))
    decreases v, 0
  {
    var ks := SortKeys(v.entries.Keys);
    SortedKeysAscend(v.entries.Keys);
    out := [];
    assert ks[0..] == ks;
    for i := 0 to |ks|
      invariant out + EncodeEntries(v, ks[i..]) == EncodeEntries(v, ks)
    {
      var key := EncodeString(ks[i]);
      var val := EncodeValue(v.entries[ks[i]]);
      EntriesAppend(v, ks, i, out, key, val);
      out := out + key + val;
    }
    assert out + [] == out;
  }

  method DecodeValue(data: Bytes, i: nat) returns (r: Result<Parsed<Value>>)
    ensures r == DecodeAt(data, i)
    decreases Left(data, i), 1
  {
    if i >= |data| {
      return Err(UnexpectedEnd);
    }
    if data[i] == LOWER_I {
      return DecodeInt(data, i);
    }
    if data[i] == LOWER_L {
      var items := DecodeList(data, i + 1);
      return match items case Err(e) => Err(e) case Ok(p) => Ok(Parsed(List(p.value), p.next));
    }
    if data[i] == LOWER_D {
      var entries := DecodeDict(data, i + 1);
      return match entries case Err(e) => Err(e) case Ok(p) => Ok(Parsed(Dict(p.value), p.next));
    }
    if IsDigit(data[i]) {
      return DecodeStr(data, i);
    }
    r := Err(UnsupportedMarker);
  }

  method DecodeList(data: Bytes, from: nat) returns (r: Result<Parsed<seq<Value>>>)
    ensures r == DecodeItems(data, from, [])
    decreases Left(data, from), 2
  {
    var i, out := from, [];
    while !EndsAt(data, i)
      invariant i >= from && DecodeItems(data, i, out) == DecodeItems(data, from, [])
      decreases Left(data, i)
    {
      var item := DecodeValue(data, i);
      if item.Err? {
        return Err(item.error);
      }
      out := out + [item.value.value];
      i := item.value.next;
    }
    r := Ok(Parsed(out, i + 1));
  }

  method DecodeDict(data: Bytes, from: nat) returns (r: Result<Parsed<map<Bytes, Value>>>)
    ensures r == DecodeEntries(data, from, map[])
    decreases Left(data, from), 2
  {
    var i := from;
    var out: map<Bytes, Value> := map[];
    while !EndsAt(data, i)
      invariant i >= from && DecodeEntries(data, i, out) == DecodeEntries(data, from, map[])
      decreases Left(data, i)
    {
      var key := DecodeValue(data, i);
      if key.Err? {
        return Err(key.error);
      }
      if !key.value.value.Str? {
        return Err(KeyNotBytes);
      }
      var val := DecodeValue(data, key.value.next);
      if val.Err? {
        return Err(val.error);
      }
      out := out[key.value.value.bytes := val.value.value];
      i := val.value.next;
    }
    r := Ok(Parsed(out, i + 1));
  }

  method DecodeAll(data: Bytes) returns (r: Result<Value>)
    ensures r == Bdecode(data)
  {
    var p := DecodeValue(data, 0);
    if p.Err? {
      return Err(p.error);
    }
    if p.value.next != |data| {
      return Err(TrailingData);
    }
    r := Ok(p.value.value);
  }

  method RewriteTorrent(data: Bytes, url: Bytes) returns (r: Rewrite)
    ensures r == RewriteAnnounce(data, url)
  {
    var payload := DecodeAll(data);
    if payload.Err? {
      return Undecodable(payload.error);
    }
    if !payload.value.Dict? {
      return NotADict;
    }
    var entries := payload.value.entries;
    entries := entries[ANNOUNCE := Str(url)];
    entries := entries[ANNOUNCE_LIST := List([List([Str(url)])])];
    var bytes := EncodeValue(Dict(entries));
    r := Rewritten(bytes);
  }
}
