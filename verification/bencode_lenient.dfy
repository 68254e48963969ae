/** The lenient grammar of the parser: which data decode, to what, and how the others fail. Numbers may
    have spaces around them, a plus sign, leading zeros and single underscores between digits; keys may
    come in any order and more than once. */
module BencodeLenient {
  import opened Common
  import opened ByteStrings
  import opened Decimals
  import opened Bencode
  import opened BencodeLaws

  // Numbers.

  predicate Blank(b: Byte) {
    b == 9 || b == 10 || b == 11 || b == 12 || b == 13 || b == 32
  }

  predicate Blanks(s: Bytes) {
    forall i | 0 <= i < |s| :: Blank(s[i])
  }

  predicate Digit(b: Byte) {
    48 <= b <= 57
  }

  /** Digits, with single underscores between them. */
  predicate DigitGroups(s: Bytes) {
    && |s| > 0 && Digit(s[0]) && Digit(s[|s| - 1])
    && (forall i | 0 <= i < |s| :: Digit(s[i]) || s[i] == 95)
    && (forall i | 0 < i < |s| :: s[i] == 95 ==> Digit(s[i - 1]))
  }

  /** The number that digits spell, read from the left. */
  function Spelled(s: Bytes, read: nat): nat
    requires forall i | 0 <= i < |s| :: Digit(s[i]) || s[i] == 95
    decreases |s|
  {
    if s == [] then read
    else
      assert Digit(s[0]) || s[0] == 95;
      Spelled(s[1..], if s[0] == 95 then read else 10 * read + s[0] - 48)
  }

  /** A number as it may be written. */
  datatype Numeral = Numeral(before: Bytes, sign: Bytes, body: Bytes, behind: Bytes)

  predicate IsNumeral(n: Numeral) {
    Blanks(n.before) && Blanks(n.behind) && (n.sign == [] || n.sign == [43] || n.sign == [45]) && DigitGroups(n.body)
  }

  function Written(n: Numeral): Bytes {
    n.before + n.sign + n.body + n.behind
  }

  function Signed(sign: Bytes, n: int): int {
    if sign == [45] then -n else n
  }

  function ValueOf(n: Numeral): int
    requires IsNumeral(n)
  {
    Signed(n.sign, Spelled(n.body, 0))
  }

  lemma {:induction false} SpelledSnoc(s: Bytes, d: Byte, read: nat)
    requires (forall i | 0 <= i < |s| :: Digit(s[i]) || s[i] == 95) && (Digit(d) || d == 95)
    ensures forall i | 0 <= i < |s + [d]| :: Digit((s + [d])[i]) || (s + [d])[i] == 95
    ensures Spelled(s + [d], read) == if d == 95 then Spelled(s, read) else 10 * Spelled(s, read) + d - 48
    decreases |s|
  {
    if s == [] {
      assert s + [d] == [d] && [d][1..] == [];
    } else {
      assert (s + [d])[1..] == s[1..] + [d];
      SpelledSnoc(s[1..], d, if s[0] == 95 then read else 10 * read + s[0] - 48);
    }
  }

  lemma {:induction false} DigitsParse(s: Bytes)
    requires DigitGroups(s)
    ensures ParseDigits(s) == Some(Spelled(s, 0))
    decreases |s|
  {
    var last := s[|s| - 1];
    if |s| == 1 {
      assert s == [] + [last];
      SpelledSnoc([], last, 0);
    } else {
      var front := s[..|s| - 1];
      assert s == front + [last];
      SpelledSnoc(front, last, 0);
      if s[|s| - 2] == 95 {
        var more := s[..|s| - 2];
        assert front == more + [95];
        SpelledSnoc(more, 95, 0);
        assert more[0] == s[0] && more[|more| - 1] == s[|s| - 3];
        DigitsParse(more);
      } else {
        DigitsParse(front);
      }
    }
  }

  lemma {:induction false} ParsedAreDigits(s: Bytes)
    requires ParseDigits(s).Some?
    ensures DigitGroups(s)
    decreases |s|
  {
    if |s| > 1 {
      if s[|s| - 2] == 95 {
        var more := s[..|s| - 2];
        ParsedAreDigits(more);
        assert forall i | 0 <= i < |more| :: more[i] == s[i];
        assert s[0] == more[0] && s[|s| - 3] == more[|more| - 1];
      } else {
        var front := s[..|s| - 1];
        ParsedAreDigits(front);
        assert forall i | 0 <= i < |front| :: front[i] == s[i];
        assert s[0] == front[0];
      }
    }
  }

  lemma {:induction false} TrimsLeft(before: Bytes, s: Bytes)
    requires Blanks(before) && (|s| > 0 ==> !Blank(s[0]))
    ensures TrimLeft(before + s) == s
    decreases |before|
  {
    if before == [] {
      assert before + s == s;
    } else {
      assert (before + s)[1..] == before[1..] + s;
      TrimsLeft(before[1..], s);
    }
  }

  lemma {:induction false} TrimsRight(s: Bytes, behind: Bytes)
    requires Blanks(behind) && (|s| > 0 ==> !Blank(s[|s| - 1]))
    ensures TrimRight(s + behind) == s
    decreases |behind|
  {
    if behind == [] {
      assert s + behind == s;
    } else {
      assert (s + behind)[..|s + behind| - 1] == s + behind[..|behind| - 1];
      TrimsRight(s, behind[..|behind| - 1]);
    }
  }

  /** Every numeral reads as its value. */
  lemma NumeralReads(n: Numeral)
    requires IsNumeral(n)
    ensures ParseInt(Written(n)) == Some(ValueOf(n))
  {
    var core := n.sign + n.body;
    assert Written(n) == n.before + (core + n.behind);
    assert core[|core| - 1] == n.body[|n.body| - 1];
    assert (core + n.behind)[0] == core[0] && (n.sign == [] ==> core[0] == n.body[0]);
    TrimsLeft(n.before, core + n.behind);
    TrimsRight(core, n.behind);
    DigitsParse(n.body);
    assert n.sign != [] ==> core[1..] == n.body && core[0] == n.sign[0];
    assert n.sign == [] ==> core == n.body;
  }

  lemma {:induction false} SplitLeft(s: Bytes) returns (before: Bytes)
    ensures s == before + TrimLeft(s) && Blanks(before)
    decreases |s|
  {
    if |s| > 0 && IsSpace(s[0]) {
      var more := SplitLeft(s[1..]);
      before := [s[0]] + more;
      assert s == [s[0]] + s[1..];
    } else {
      before := [];
    }
  }

  lemma {:induction false} SplitRight(s: Bytes) returns (behind: Bytes)
    ensures s == TrimRight(s) + behind && Blanks(behind)
    decreases |s|
  {
    if |s| > 0 && IsSpace(s[|s| - 1]) {
      var more := SplitRight(s[..|s| - 1]);
      behind := more + [s[|s| - 1]];
      assert s == s[..|s| - 1] + [s[|s| - 1]];
    } else {
      behind := [];
    }
  }

  lemma SplitSign(core: Bytes) returns (sign: Bytes, body: Bytes)
    requires ParseSigned(core).Some?
    ensures core == sign + body && (sign == [] || sign == [43] || sign == [45]) && DigitGroups(body)
    ensures ParseSigned(core) == Some(Signed(sign, Spelled(body, 0)))
  {
    if core[0] == 45 || core[0] == 43 {
      sign, body := [core[0]], core[1..];
    } else {
      sign, body := [], core;
    }
    ParsedAreDigits(body);
    DigitsParse(body);
  }

  lemma Joined(before: Bytes, sign: Bytes, body: Bytes, behind: Bytes)
    ensures before + sign + body + behind == before + ((sign + body) + behind)
  {
  }

  /** Whatever reads as a number is a numeral. */
  lemma OnlyNumeralsRead(s: Bytes) returns (n: Numeral)
    requires ParseInt(s).Some?
    ensures IsNumeral(n) && Written(n) == s && ParseInt(s) == Some(ValueOf(n))
  {
    var left := TrimLeft(s);
    var before := SplitLeft(s);
    var behind := SplitRight(left);
    var sign, body := SplitSign(TrimRight(left));
    Joined(before, sign, body, behind);
    n := Numeral(before, sign, body, behind);
  }

  /** A numeral has no letter and no colon in it. */
  lemma NumeralBytes(n: Numeral)
    requires IsNumeral(n)
    ensures COLON !in Written(n) && LOWER_E !in Written(n)
  {
  }

  // Texts.

  /** Data as they are written. A dictionary lists keys and values in turn. */
  datatype Tree =
    | IntTree(number: Numeral)
    | StrTree(length: Numeral, bytes: Bytes)
    | ListTree(items: seq<Tree>)
    | DictTree(parts: seq<Tree>)

  /** A length starts with a digit and is that of its bytes; keys are strings. */
  predicate Proper(t: Tree) {
    match t
    case IntTree(n) => IsNumeral(n)
    case StrTree(n, bytes) => IsNumeral(n) && n.before == [] && n.sign == [] && ValueOf(n) == |bytes|
    case ListTree(items) => forall i | 0 <= i < |items| :: Proper(items[i])
    case DictTree(parts) =>
      && |parts| % 2 == 0 && (forall i | 0 <= i < |parts| :: Proper(parts[i]))
      && (forall i | 0 <= i < |parts| :: i % 2 == 0 ==> parts[i].StrTree?)
  }

  function Text(t: Tree): Bytes
    decreases t
  {
    match t
    case IntTree(n) => [LOWER_I] + Written(n) + [LOWER_E]
    case StrTree(n, bytes) => Written(n) + [COLON] + bytes
    case ListTree(items) => [LOWER_L] + Texts(items) + [LOWER_E]
    case DictTree(parts) => [LOWER_D] + Texts(parts) + [LOWER_E]
  }

  function Texts(ts: seq<Tree>): Bytes
    decreases ts
  {
    if ts == [] then [] else Text(ts[0]) + Texts(ts[1..])
  }

  /** Keys and values in turn; a key that comes again takes its last value. */
  function Collected(entries: map<Bytes, Value>, vs: seq<Value>): map<Bytes, Value>
    decreases |vs|
  {
    if |vs| < 2 || !vs[0].Str? then entries else Collected(entries[vs[0].bytes := vs[1]], vs[2..])
  }

  function Meaning(t: Tree): Value
    requires Proper(t)
    decreases t
  {
    match t
    case IntTree(n) => Int(ValueOf(n))
    case StrTree(_, bytes) => Str(bytes)
    case ListTree(items) => List(Meanings(items))
    case DictTree(parts) => Dict(Collected(map[], Meanings(parts)))
  }

  predicate AllProper(ts: seq<Tree>) {
    forall i | 0 <= i < |ts| :: Proper(ts[i])
  }

  function Meanings(ts: seq<Tree>): (vs: seq<Value>)
    requires AllProper(ts)
    ensures |vs| == |ts|
    decreases ts
  {
    if ts == [] then [] else [Meaning(ts[0])] + Meanings(ts[1..])
  }

  // Every proper text decodes to its meaning.

  lemma TextHead(t: Tree)
    requires Proper(t)
    ensures |Text(t)| > 0 && Text(t)[0] != LOWER_E
  {
    if t.StrTree? {
      assert Text(t)[0] == t.length.body[0];
    }
  }

  lemma StrTextDecodes(data: Bytes, i: nat, t: Tree)
    requires t.StrTree? && Proper(t) && StandsAt(data, i, Text(t))
    ensures Decodes(data, i, Str(t.bytes), i + |Text(t)|)
  {
    var number := Written(t.length);
    var colon := i + |number|;
    NumeralBytes(t.length);
    NumeralReads(t.length);
    StandsSplit(data, i, number + [COLON], t.bytes);
    StandsSplit(data, i, number, [COLON]);
    FindAfter(data, i, number, COLON);
    assert number[0] == t.length.body[0];
    StandsByte(data, i, number, 0);
    assert data[i..colon] == number;
    DecodeStrAt(data, i, colon, t.bytes);
  }

  lemma IntTextDecodes(data: Bytes, i: nat, n: Numeral)
    requires IsNumeral(n) && StandsAt(data, i, Text(IntTree(n)))
    ensures Decodes(data, i, Int(ValueOf(n)), i + |Text(IntTree(n))|)
  {
    var number := Written(n);
    NumeralBytes(n);
    NumeralReads(n);
    BracketParts(data, i, LOWER_I, number);
    var end := i + 1 + |number|;
    StandsByte(data, end, [LOWER_E], 0);
    IntFound(data, i, number, end);
    DecodeIntAt(data, i, end, ValueOf(n));
  }

  lemma IntFound(data: Bytes, i: nat, number: Bytes, end: nat)
    requires i < |data| && data[i] == LOWER_I && StandsAt(data, i + 1, number) && LOWER_E !in number
    requires end == i + 1 + |number| && end < |data| && data[end] == LOWER_E
    ensures Find(data, LOWER_E, i) == Some(end) && data[i + 1..end] == number
  {
    FindIs(data, LOWER_E, i);
    forall k | i <= k < end
      ensures data[k] != LOWER_E
    {
      if k > i {
        StandsByte(data, i + 1, number, k - i - 1);
        assert number[k - i - 1] in number;
      }
    }
  }

  lemma {:induction false} TextDecodes(data: Bytes, i: nat, t: Tree)
    requires Proper(t) && StandsAt(data, i, Text(t))
    ensures Decodes(data, i, Meaning(t), i + |Text(t)|)
    decreases t
  {
    match t
    case IntTree(n) => IntTextDecodes(data, i, n);
    case StrTree(_, _) => StrTextDecodes(data, i, t);
    case ListTree(items) =>
      var end := i + 1 + |Texts(items)|;
      BracketStands(data, i, LOWER_L, Texts(items), end);
      ListTextDecodes(data, i, items, end);
    case DictTree(parts) =>
      var end := i + 1 + |Texts(parts)|;
      BracketStands(data, i, LOWER_D, Texts(parts), end);
      DictTextDecodes(data, i, parts, end);
  }

  lemma BracketStands(data: Bytes, i: nat, open: Byte, inner: Bytes, end: nat)
    requires StandsAt(data, i, [open] + inner + [LOWER_E]) && end == i + 1 + |inner|
    ensures i < |data| && data[i] == open && StandsAt(data, i + 1, inner) && EndsAt(data, end)
  {
    BracketParts(data, i, open, inner);
    StandsByte(data, end, [LOWER_E], 0);
  }

  lemma {:induction false} ListTextDecodes(data: Bytes, i: nat, items: seq<Tree>, end: nat)
    requires AllProper(items) && StandsAt(data, i + 1, Texts(items)) && end == i + 1 + |Texts(items)|
    requires i < |data| && data[i] == LOWER_L && EndsAt(data, end)
    ensures Decodes(data, i, List(Meanings(items)), end + 1)
    decreases items, 1
  {
    ItemTextsDecode(data, i + 1, items, [], end);
    assert [] + Meanings(items) == Meanings(items);
    ListDone(data, i, Meanings(items), end);
  }

  lemma {:induction false} DictTextDecodes(data: Bytes, i: nat, parts: seq<Tree>, end: nat)
    requires AllProper(parts) && KeysInTurn(parts)
    requires StandsAt(data, i + 1, Texts(parts)) && end == i + 1 + |Texts(parts)|
    requires i < |data| && data[i] == LOWER_D && EndsAt(data, end)
    ensures Decodes(data, i, Dict(Collected(map[], Meanings(parts))), end + 1)
    decreases parts, 3
  {
    PartTextsDecode(data, i + 1, parts, map[], end);
    DictDone(data, i, Collected(map[], Meanings(parts)), end);
  }

  lemma ListDone(data: Bytes, i: nat, items: seq<Value>, end: nat)
    requires i < |data| && data[i] == LOWER_L && EndsAt(data, end)
    requires DecodeItems(data, i + 1, []) == DecodeItems(data, end, items)
    ensures Decodes(data, i, List(items), end + 1)
  {
  }

  lemma DictDone(data: Bytes, i: nat, entries: map<Bytes, Value>, end: nat)
    requires i < |data| && data[i] == LOWER_D && EndsAt(data, end)
    requires DecodeEntries(data, i + 1, map[]) == DecodeEntries(data, end, entries)
    ensures Decodes(data, i, Dict(entries), end + 1)
  {
  }

  /** The first text stands first, and the others behind it. */
  lemma FirstText(data: Bytes, i: nat, ts: seq<Tree>) returns (next: nat)
    requires ts != [] && Proper(ts[0]) && StandsAt(data, i, Texts(ts))
    ensures next == i + |Text(ts[0])| && StandsAt(data, i, Text(ts[0])) && !EndsAt(data, i)
    ensures StandsAt(data, next, Texts(ts[1..])) && next + |Texts(ts[1..])| == i + |Texts(ts)|
  {
    StandsSplit(data, i, Text(ts[0]), Texts(ts[1..]));
    TextHead(ts[0]);
    StandsByte(data, i, Text(ts[0]), 0);
    next := i + |Text(ts[0])|;
  }

  lemma {:induction false} ItemTextsDecode(data: Bytes, i: nat, ts: seq<Tree>, items: seq<Value>, end: nat)
    requires AllProper(ts) && StandsAt(data, i, Texts(ts)) && end == i + |Texts(ts)|
    ensures DecodeItems(data, i, items) == DecodeItems(data, end, items + Meanings(ts))
    decreases ts, 0
  {
    if ts == [] {
      assert items + [] == items;
    } else {
      var next := FirstText(data, i, ts);
      var item := Meaning(ts[0]);
      TextDecodes(data, i, ts[0]);
      ItemsStep(data, i, items, item, next);
      ItemTextsDecode(data, next, ts[1..], items + [item], end);
      assert items + [item] + Meanings(ts[1..]) == items + ([item] + Meanings(ts[1..]));
    }
  }

  predicate KeysInTurn(ts: seq<Tree>) {
    |ts| % 2 == 0 && forall i | 0 <= i < |ts| :: i % 2 == 0 ==> ts[i].StrTree?
  }

  /** A key and its value stand first, and the others behind them. */
  lemma FirstPart(data: Bytes, i: nat, ts: seq<Tree>) returns (middle: nat, next: nat)
    requires |ts| >= 2 && Proper(ts[0]) && Proper(ts[1]) && StandsAt(data, i, Texts(ts))
    ensures middle == i + |Text(ts[0])| && StandsAt(data, i, Text(ts[0])) && !EndsAt(data, i)
    ensures next == middle + |Text(ts[1])| && StandsAt(data, middle, Text(ts[1]))
    ensures StandsAt(data, next, Texts(ts[2..])) && next + |Texts(ts[2..])| == i + |Texts(ts)|
  {
    middle := FirstText(data, i, ts);
    assert ts[1..][0] == ts[1] && ts[1..][1..] == ts[2..];
    next := FirstText(data, middle, ts[1..]);
  }

  lemma CollectedPart(entries: map<Bytes, Value>, ts: seq<Tree>)
    requires AllProper(ts) && |ts| >= 2 && ts[0].StrTree?
    ensures AllProper(ts[2..])
    ensures Collected(entries, Meanings(ts)) == Collected(entries[ts[0].bytes := Meaning(ts[1])], Meanings(ts[2..]))
  {
    assert ts[1..][1..] == ts[2..] && ts[1..][0] == ts[1];
    assert Meanings(ts)[1..] == Meanings(ts[1..]) && Meanings(ts[1..])[1..] == Meanings(ts[1..][1..]);
    assert Meanings(ts)[2..] == Meanings(ts)[1..][1..];
  }

  lemma {:induction false} PartTextDecodes(data: Bytes, i: nat, ts: seq<Tree>) returns (middle: nat, next: nat)
    requires |ts| >= 2 && ts[0].StrTree? && Proper(ts[0]) && Proper(ts[1]) && StandsAt(data, i, Texts(ts))
    ensures !EndsAt(data, i)
    ensures Decodes(data, i, Str(ts[0].bytes), middle) && Decodes(data, middle, Meaning(ts[1]), next)
    ensures StandsAt(data, next, Texts(ts[2..])) && next + |Texts(ts[2..])| == i + |Texts(ts)|
    decreases ts, 0
  {
    middle, next := FirstPart(data, i, ts);
    StrTextDecodes(data, i, ts[0]);
    TextDecodes(data, middle, ts[1]);
  }

  lemma {:induction false} PartTextStep(data: Bytes, i: nat, ts: seq<Tree>, entries: map<Bytes, Value>)
    returns (next: nat)
    requires |ts| >= 2 && ts[0].StrTree? && Proper(ts[0]) && Proper(ts[1]) && StandsAt(data, i, Texts(ts))
    ensures DecodeEntries(data, i, entries) == DecodeEntries(data, next, entries[ts[0].bytes := Meaning(ts[1])])
    ensures StandsAt(data, next, Texts(ts[2..])) && next + |Texts(ts[2..])| == i + |Texts(ts)|
    decreases ts, 1
  {
    var middle;
    middle, next := PartTextDecodes(data, i, ts);
    EntriesStep(data, i, entries, ts[0].bytes, middle, Meaning(ts[1]), next);
  }

  lemma KeysFirst(ts: seq<Tree>)
    requires KeysInTurn(ts) && ts != []
    ensures |ts| >= 2 && ts[0].StrTree? && KeysInTurn(ts[2..])
  {
  }

  lemma {:induction false} PartTextsDecode(data: Bytes, i: nat, ts: seq<Tree>, entries: map<Bytes, Value>, end: nat)
    requires AllProper(ts) && KeysInTurn(ts) && StandsAt(data, i, Texts(ts)) && end == i + |Texts(ts)|
    ensures DecodeEntries(data, i, entries) == DecodeEntries(data, end, Collected(entries, Meanings(ts)))
    decreases ts, 2
  {
    if ts != [] {
      KeysFirst(ts);
      var next := PartTextStep(data, i, ts, entries);
      CollectedPart(entries, ts);
      PartTextsDecode(data, next, ts[2..], entries[ts[0].bytes := Meaning(ts[1])], end);
    }
  }

  // Whatever decodes is such a text.

  lemma StrParts(data: Bytes, i: nat, v: Value, next: nat) returns (colon: nat)
    requires i < |data| && IsDigit(data[i]) && Decodes(data, i, v, next) && next <= |data|
    ensures i < colon < next && data[colon] == COLON && v == Str(data[colon + 1..next])
    ensures ParseInt(data[i..colon]) == Some(next - colon - 1)
  {
    colon := Find(data, COLON, i).value;
    FindIs(data, COLON, i);
    LeadingDigit(data[i..colon]);
  }

  lemma StrHasText(data: Bytes, i: nat, v: Value, next: nat) returns (t: Tree)
    requires i < |data| && IsDigit(data[i]) && Decodes(data, i, v, next) && next <= |data|
    ensures t.StrTree? && Proper(t) && Text(t) == data[i..next] && Meaning(t) == v
  {
    var colon := StrParts(data, i, v, next);
    var n := OnlyNumeralsRead(data[i..colon]);
    DigitFirst(n);
    t := StrTree(n, v.bytes);
    assert data[i..next] == data[i..colon] + [COLON] + data[colon + 1..next];
  }

  /** A numeral that starts with a digit has no blanks before it and no sign. */
  lemma DigitFirst(n: Numeral)
    requires IsNumeral(n) && Digit(Written(n)[0])
    ensures n.before == [] && n.sign == []
  {
  }

  lemma IntHasText(data: Bytes, i: nat, v: Value, next: nat) returns (t: Tree)
    requires i < |data| && data[i] == LOWER_I && Decodes(data, i, v, next)
    ensures Proper(t) && next <= |data| && Text(t) == data[i..next] && Meaning(t) == v
  {
    var end := Find(data, LOWER_E, i).value;
    FindIs(data, LOWER_E, i);
    var n := OnlyNumeralsRead(data[i + 1..end]);
    t := IntTree(n);
    assert data[i..next] == [LOWER_I] + data[i + 1..end] + [LOWER_E];
  }

  /** `t` is the text from `i` to `next`, and `v` its meaning. */
  predicate TextOf(data: Bytes, i: nat, next: nat, t: Tree, v: Value) {
    i < next <= |data| && Proper(t) && Text(t) == data[i..next] && Meaning(t) == v
  }

  /** Items found behind `items` up to the `e` before `end`. */
  predicate ItemsOf(data: Bytes, i: nat, items: seq<Value>, all: seq<Value>, end: nat, ts: seq<Tree>) {
    && i < end && EndsAt(data, end - 1) && AllProper(ts)
    && Texts(ts) == data[i..end - 1] && all == items + Meanings(ts)
  }

  predicate PartsOf(
    data: Bytes, i: nat, entries: map<Bytes, Value>, all: map<Bytes, Value>, end: nat, ts: seq<Tree>)
  {
    && i < end && EndsAt(data, end - 1) && AllProper(ts) && KeysInTurn(ts)
    && Texts(ts) == data[i..end - 1] && all == Collected(entries, Meanings(ts))
  }

  lemma {:induction false} HasText(data: Bytes, i: nat, v: Value, next: nat) returns (t: Tree)
    requires Decodes(data, i, v, next) && next <= |data|
    ensures TextOf(data, i, next, t, v)
    decreases Left(data, i), 0
  {
    if data[i] == LOWER_I {
      t := IntHasText(data, i, v, next);
    } else if data[i] == LOWER_L {
      var ts := ItemsHaveTexts(data, i + 1, [], v.items, next);
      t := ListTree(ts);
      assert [] + Meanings(ts) == Meanings(ts);
      Bracket(data, i, LOWER_L, next);
    } else if data[i] == LOWER_D {
      var ts := PartsHaveTexts(data, i + 1, map[], v.entries, next);
      t := DictTree(ts);
      Bracket(data, i, LOWER_D, next);
    } else {
      t := StrHasText(data, i, v, next);
    }
  }

  lemma Bracket(data: Bytes, i: nat, open: Byte, next: nat)
    requires i + 1 < next <= |data| && data[i] == open && EndsAt(data, next - 1)
    ensures data[i..next] == [open] + data[i + 1..next - 1] + [LOWER_E]
  {
  }

  /** Items that go on have a next one, and go on within the data. */
  lemma FirstItem(data: Bytes, i: nat, items: seq<Value>, all: seq<Value>, end: nat) returns (item: Value, next: nat)
    requires !EndsAt(data, i) && DecodeItems(data, i, items) == Ok(Parsed(all, end))
    ensures Decodes(data, i, item, next) && i < next < |data|
    ensures DecodeItems(data, next, items + [item]) == Ok(Parsed(all, end))
  {
    item, next := DecodeAt(data, i).value.value, DecodeAt(data, i).value.next;
  }

  lemma {:induction false} ItemsHaveTexts(data: Bytes, i: nat, items: seq<Value>, all: seq<Value>, end: nat)
    returns (ts: seq<Tree>)
    requires DecodeItems(data, i, items) == Ok(Parsed(all, end)) && end <= |data|
    ensures ItemsOf(data, i, items, all, end, ts)
    decreases Left(data, i), 1
  {
    if EndsAt(data, i) {
      ts := [];
    } else {
      var item, next := FirstItem(data, i, items, all, end);
      var t := HasText(data, i, item, next);
      var rest := ItemsHaveTexts(data, next, items + [item], all, end);
      ts := ItemsStepBack(data, i, items, item, next, t, all, end, rest);
    }
  }

  lemma ItemsStepBack(
    data: Bytes, i: nat, items: seq<Value>, item: Value, next: nat, t: Tree, all: seq<Value>, end: nat, rest: seq<Tree>)
    returns (ts: seq<Tree>)
    requires TextOf(data, i, next, t, item) && ItemsOf(data, next, items + [item], all, end, rest)
    ensures ItemsOf(data, i, items, all, end, ts)
  {
    ts := OneMore(t, rest);
    assert items + [item] + Meanings(rest) == items + ([item] + Meanings(rest));
    assert data[i..end - 1] == data[i..next] + data[next..end - 1];
  }

  lemma OneMore(t: Tree, rest: seq<Tree>) returns (ts: seq<Tree>)
    requires Proper(t) && AllProper(rest)
    ensures ts == [t] + rest && AllProper(ts) && Texts(ts) == Text(t) + Texts(rest)
    ensures Meanings(ts) == [Meaning(t)] + Meanings(rest)
  {
    ts := [t] + rest;
    assert ts[1..] == rest;
  }

  /** Entries that go on have a next one, and go on within the data. */
  lemma FirstEntry(data: Bytes, i: nat, entries: map<Bytes, Value>, all: map<Bytes, Value>, end: nat)
    returns (key: Bytes, middle: nat, val: Value, next: nat)
    requires !EndsAt(data, i) && DecodeEntries(data, i, entries) == Ok(Parsed(all, end))
    ensures Decodes(data, i, Str(key), middle) && Decodes(data, middle, val, next) && i < middle < next < |data|
    ensures DecodeEntries(data, next, entries[key := val]) == Ok(Parsed(all, end))
  {
    key, middle := DecodeAt(data, i).value.value.bytes, DecodeAt(data, i).value.next;
    val, next := DecodeAt(data, middle).value.value, DecodeAt(data, middle).value.next;
  }

  lemma {:induction false} PartsHaveTexts(
    data: Bytes, i: nat, entries: map<Bytes, Value>, all: map<Bytes, Value>, end: nat)
    returns (ts: seq<Tree>)
    requires DecodeEntries(data, i, entries) == Ok(Parsed(all, end)) && end <= |data|
    ensures PartsOf(data, i, entries, all, end, ts)
    decreases Left(data, i), 1
  {
    if EndsAt(data, i) {
      ts := [];
    } else {
      var key, middle, val, next := FirstEntry(data, i, entries, all, end);
      var k := HasText(data, i, Str(key), middle);
      var v := HasText(data, middle, val, next);
      var rest := PartsHaveTexts(data, next, entries[key := val], all, end);
      ts := PartsStepBack(data, i, entries, k, middle, v, next, all, end, rest);
    }
  }

  lemma PartsStepBack(
    data: Bytes, i: nat, entries: map<Bytes, Value>, k: Tree, middle: nat, v: Tree, next: nat,
    all: map<Bytes, Value>, end: nat, rest: seq<Tree>)
    returns (ts: seq<Tree>)
    requires k.StrTree? && TextOf(data, i, middle, k, Str(k.bytes)) && Proper(v)
    requires TextOf(data, middle, next, v, Meaning(v))
    requires PartsOf(data, next, entries[k.bytes := Meaning(v)], all, end, rest)
    ensures PartsOf(data, i, entries, all, end, ts)
  {
    ts := TwoMore(k, v, rest, entries);
    JoinedParts(data, i, middle, next, end - 1);
  }

  lemma JoinedParts(data: Bytes, i: nat, middle: nat, next: nat, end: nat)
    requires i <= middle <= next <= end <= |data|
    ensures data[i..end] == data[i..middle] + (data[middle..next] + data[next..end])
  {
  }

  lemma TwoMore(k: Tree, v: Tree, rest: seq<Tree>, entries: map<Bytes, Value>) returns (ts: seq<Tree>)
    requires Proper(k) && k.StrTree? && Proper(v) && AllProper(rest) && KeysInTurn(rest)
    ensures AllProper(ts) && KeysInTurn(ts) && Texts(ts) == Text(k) + (Text(v) + Texts(rest))
    ensures Collected(entries, Meanings(ts)) == Collected(entries[k.bytes := Meaning(v)], Meanings(rest))
  {
    var behind := OneMore(v, rest);
    ts := OneMore(k, behind);
    assert ts[2..] == rest;
    CollectedPart(entries, ts);
    KeysTwoMore(k, v, rest);
    assert ts == [k, v] + rest;
  }

  lemma KeysTwoMore(k: Tree, v: Tree, rest: seq<Tree>)
    requires k.StrTree? && KeysInTurn(rest)
    ensures KeysInTurn([k, v] + rest)
  {
  }

  lemma TextIsRead(t: Tree)
    requires Proper(t)
    ensures Bdecode(Text(t)) == Ok(Meaning(t))
  {
    assert Text(t)[0..|Text(t)|] == Text(t);
    TextDecodes(Text(t), 0, t);
  }

  lemma ReadHasText(data: Bytes, v: Value) returns (t: Tree)
    requires Bdecode(data) == Ok(v)
    ensures Proper(t) && Text(t) == data && Meaning(t) == v
  {
    t := HasText(data, 0, v, |data|);
    assert data[0..|data|] == data;
  }

  /** Data decode to a value if and only if they are a proper text with that meaning. */
  lemma DecodesExactly(data: Bytes, v: Value)
    ensures Bdecode(data) == Ok(v) <==> exists t :: Proper(t) && Text(t) == data && Meaning(t) == v
  {
    if Bdecode(data) == Ok(v) {
      var t := ReadHasText(data, v);
    }
    if t :| Proper(t) && Text(t) == data && Meaning(t) == v {
      TextIsRead(t);
    }
  }

  // How other data fail.

  /** The error at a position tells what is there. */
  lemma ErrorsTell(data: Bytes, i: nat)
    ensures i >= |data| ==> DecodeAt(data, i) == Err(UnexpectedEnd)
    ensures i < |data| && data[i] !in {LOWER_I, LOWER_L, LOWER_D} && !Digit(data[i]) ==>
              DecodeAt(data, i) == Err(UnsupportedMarker)
    ensures i < |data| && data[i] == LOWER_I && (forall k | i <= k < |data| :: data[k] != LOWER_E) ==>
              DecodeAt(data, i) == Err(InvalidInt)
    ensures i < |data| && Digit(data[i]) && (forall k | i <= k < |data| :: data[k] != COLON) ==>
              DecodeAt(data, i) == Err(InvalidBytes)
  {
    FindIs(data, LOWER_E, i);
    FindIs(data, COLON, i);
  }

  /** Between an `i` and the next `e`, and between a digit and the next colon, stands a numeral or the
      number is bad. */
  lemma BadNumbersTell(data: Bytes, i: nat, end: nat)
    requires i < end < |data|
    ensures data[i] == LOWER_I && data[end] == LOWER_E && (forall k | i <= k < end :: data[k] != LOWER_E) ==>
              (DecodeAt(data, i) == Err(BadNumber) <==> !exists n :: IsNumeral(n) && Written(n) == data[i + 1..end])
    ensures Digit(data[i]) && data[end] == COLON && (forall k | i <= k < end :: data[k] != COLON) ==>
              (DecodeAt(data, i) == Err(BadNumber) <==> !exists n :: IsNumeral(n) && Written(n) == data[i..end])
  {
    FindIs(data, LOWER_E, i);
    FindIs(data, COLON, i);
    ReadsExactly(data[i + 1..end]);
    ReadsExactly(data[i..end]);
  }

  lemma ReadsExactly(s: Bytes)
    ensures ParseInt(s).Some? <==> exists n :: IsNumeral(n) && Written(n) == s
  {
    if ParseInt(s).Some? {
      var n := OnlyNumeralsRead(s);
    }
    if n :| IsNumeral(n) && Written(n) == s {
      NumeralReads(n);
    }
  }

  /** A dictionary whose first key is no string fails as such; a failing value fails its container. */
  lemma ContainersFail(data: Bytes, i: nat)
    requires i < |data| && !EndsAt(data, i + 1)
    ensures data[i] == LOWER_L && DecodeAt(data, i + 1).Err? ==> DecodeAt(data, i) == Err(DecodeAt(data, i + 1).error)
    ensures data[i] == LOWER_D && DecodeAt(data, i + 1).Err? ==> DecodeAt(data, i) == Err(DecodeAt(data, i + 1).error)
    ensures data[i] == LOWER_D && DecodeAt(data, i + 1).Ok? && !DecodeAt(data, i + 1).value.value.Str? ==>
              DecodeAt(data, i) == Err(KeyNotBytes)
  {
  }

  /** A string that promises more bytes than there are is not refused as such: the whole is refused
      for not ending where the data do. So is a value with more data behind it. */
  lemma CutShortIsTrailing(n: Numeral, bytes: Bytes)
    requires IsNumeral(n) && n.before == [] && n.sign == [] && ValueOf(n) > |bytes|
    ensures Bdecode(Written(n) + [COLON] + bytes) == Err(TrailingData)
  {
    var data := Written(n) + [COLON] + bytes;
    var colon := |Written(n)|;
    NumeralBytes(n);
    NumeralReads(n);
    assert StandsAt(data, 0, Written(n) + [COLON]);
    FindAfter(data, 0, Written(n), COLON);
    assert data[0..colon] == Written(n) && data[0] == n.body[0];
  }

  lemma MoreIsTrailing(t: Tree, more: Bytes)
    requires Proper(t) && more != []
    ensures Bdecode(Text(t) + more) == Err(TrailingData)
  {
    var data := Text(t) + more;
    assert data[0..|Text(t)|] == Text(t);
    TextDecodes(data, 0, t);
  }

  // Rewriting.

  /** What `key` finds in the entries of a rewritten dictionary. */
  predicate Replaced(before: map<Bytes, Value>, after: map<Bytes, Value>, url: Bytes, key: Bytes) {
    var announce: Bytes := [97, 110, 110, 111, 117, 110, 99, 101];
    var list: Bytes := announce + [45, 108, 105, 115, 116];
    if key == announce then
      key in after && after[key] == Str(url)
    else if key == list then
      key in after && after[key] == List([List([Str(url)])])
    else
      (key in after <==> key in before) && (key in after ==> after[key] == before[key])
  }

  /** A rewrite fails with the decoder's error, or for a root that is no dictionary. Otherwise the result
      decodes to the old entries with the address under `announce`, and alone in the only tier of
      `announce-list`. */
  lemma RewriteTells(data: Bytes, url: Bytes, key: Bytes)
    ensures Bdecode(data).Err? ==> RewriteAnnounce(data, url) == Undecodable(Bdecode(data).error)
    ensures Bdecode(data).Ok? ==> (RewriteAnnounce(data, url) == NotADict <==> !Bdecode(data).value.Dict?)
    ensures
      Bdecode(data).Ok? && Bdecode(data).value.Dict? ==>
        && RewriteAnnounce(data, url).Rewritten?
        && var after := Bdecode(RewriteAnnounce(data, url).bytes);
        && after.Ok? && after.value.Dict?
        && Replaced(Bdecode(data).value.entries, after.value.entries, url, key)
  {
    RewriteDecodes(data, url);
    assert ANNOUNCE_LIST == ANNOUNCE + [45, 108, 105, 115, 116];
  }
}
