/**
 The canonical text that the event logger signs: JSON with the keys of every
 object sorted. Two values have the same text exactly when they are equal up to
 the order of keys, which a parser that reads the text back shows.

 A text is a sequence of UTF-16 code units. A number is carried as the text it
 prints as, which for a finite number other than -0 determines it.
 */
module CanonicalJson {
  import opened Prelude

  type Unit = u: int | 0 <= u < 0x1_0000 witness 0

  type Text = seq<Unit>

  datatype Json =
    | Null
    | Bool(value: bool)
    | Num(text: Text)
    | Str(chars: Text)
    | Arr(items: seq<Json>)
    | Obj(members: seq<Member>)

  datatype Member = Member(key: Text, value: Json)

  const QUOTE: Unit := 34
  const COMMA: Unit := 44
  const COLON: Unit := 58
  const OPEN_BRACKET: Unit := 91
  const BACKSLASH: Unit := 92
  const CLOSE_BRACKET: Unit := 93
  const LETTER_U: Unit := 117
  const OPEN_BRACE: Unit := 123
  const CLOSE_BRACE: Unit := 125
  const NULL_TEXT: Text := [110, 117, 108, 108]
  const TRUE_TEXT: Text := [116, 114, 117, 101]
  const FALSE_TEXT: Text := [102, 97, 108, 115, 101]

  predicate Digit(u: Unit) { 48 <= u <= 57 }

  /** Digits, plus, minus, point and e. */
  predicate NumberUnit(u: Unit) { Digit(u) || u == 43 || u == 45 || u == 46 || u == 101 }

  // ----- Object keys -----

  /** The keys of an object, in the order they were set. */
  function Keys(ms: seq<Member>): (ks: seq<Text>)
    ensures forall k :: k in ks <==> exists i :: 0 <= i < |ms| && ms[i].key == k
  {
    if ms == [] then [] else [ms[0].key] + Keys(ms[1..])
  }

  /** The value under a key. */
  function At(ms: seq<Member>, k: Text): (v: Json)
    requires k in Keys(ms)
    ensures exists i :: 0 <= i < |ms| && ms[i] == Member(k, v)
  {
    if ms[0].key == k then ms[0].value else At(ms[1..], k)
  }

  /** The values the canonical text is defined on: numbers are numbers, and no object has a key twice. */
  predicate WellFormed(v: Json) {
    match v
    case Num(t) => t != [] && (Digit(t[0]) || t[0] == 45) && forall i :: 0 <= i < |t| ==> NumberUnit(t[i])
    case Arr(items) => forall i :: 0 <= i < |items| ==> WellFormed(items[i])
    case Obj(ms) => DistinctKeys(ms) && forall i :: 0 <= i < |ms| ==> WellFormed(ms[i].value)
    case _ => true
  }

  predicate DistinctKeys(ms: seq<Member>) {
    forall i, j :: 0 <= i < j < |ms| ==> ms[i].key != ms[j].key
  }

  /** Equal up to the order of keys, at any depth. */
  ghost predicate Equivalent(v: Json, w: Json)
    decreases v
  {
    if v.Arr? && w.Arr? then
      |v.items| == |w.items| && forall i :: 0 <= i < |v.items| ==> Equivalent(v.items[i], w.items[i])
    else if v.Obj? && w.Obj? then
      && (forall k :: k in Keys(v.members) <==> k in Keys(w.members))
      && forall k :: k in Keys(v.members) && k in Keys(w.members) ==> Equivalent(At(v.members, k), At(w.members, k))
    else v == w
  }

  // ----- Sorting keys -----

  /** The order of JavaScript's sort: by code units. */
  predicate Less(a: Text, b: Text) {
    b != [] && (a == [] || a[0] < b[0] || (a[0] == b[0] && Less(a[1..], b[1..])))
  }

  lemma {:induction false} LessIsTotal(a: Text, b: Text)
    ensures Less(a, b) || a == b || Less(b, a)
    ensures !(Less(a, b) && Less(b, a)) && !Less(a, a)
  {
    if a != [] && b != [] {
      LessIsTotal(a[1..], b[1..]);
      assert a == [a[0]] + a[1..] && b == [b[0]] + b[1..];
    }
    if a != [] { LessIsTotal(a[1..], a[1..]); }
  }

  lemma {:induction false} LessIsTransitive(a: Text, b: Text, c: Text)
    requires Less(a, b) && Less(b, c)
    ensures Less(a, c)
  {
    if a != [] && a[0] == b[0] == c[0] { LessIsTransitive(a[1..], b[1..], c[1..]); }
  }

  ghost predicate Increasing(ks: seq<Text>) {
    forall i, j :: 0 <= i < j < |ks| ==> Less(ks[i], ks[j])
  }

  function Insert(k: Text, ks: seq<Text>): (r: seq<Text>)
    ensures forall x :: x in r <==> x == k || x in ks
  {
    if ks == [] || Less(k, ks[0]) then [k] + ks else [ks[0]] + Insert(k, ks[1..])
  }

  function Sort(ks: seq<Text>): (r: seq<Text>)
    ensures forall x :: x in r <==> x in ks
  {
    if ks == [] then [] else Insert(ks[0], Sort(ks[1..]))
  }

  lemma {:induction false} InsertKeepsOrder(k: Text, ks: seq<Text>)
    requires Increasing(ks) && k !in ks
    ensures Increasing(Insert(k, ks))
  {
    if ks != [] {
      LessIsTotal(k, ks[0]);
      if Less(k, ks[0]) {
        forall j | 0 < j < |ks| ensures Less(k, ks[j]) { LessIsTransitive(k, ks[0], ks[j]); }
      } else {
        InsertKeepsOrder(k, ks[1..]);
        var r := Insert(k, ks[1..]);
        assert forall x :: x in ks[1..] ==> Less(ks[0], x);
        assert forall j :: 0 <= j < |r| ==> r[j] in r && Less(ks[0], r[j]);
      }
    }
  }

  lemma {:induction false} SortSorts(ms: seq<Member>)
    requires DistinctKeys(ms)
    ensures Increasing(Sort(Keys(ms)))
  {
    if ms != [] {
      assert Keys(ms)[0] == ms[0].key && Keys(ms)[1..] == Keys(ms[1..]);
      SortSorts(ms[1..]);
      InsertKeepsOrder(ms[0].key, Sort(Keys(ms[1..])));
    }
  }

  /** Whatever sorts the keys arrives at the same list. */
  lemma {:induction false} OneSortedList(a: seq<Text>, b: seq<Text>)
    requires Increasing(a) && Increasing(b) && forall k :: k in a <==> k in b
    ensures a == b
  {
    assert (a != [] ==> a[0] in b) && (b != [] ==> b[0] in a);
    if a != [] {
      var i :| 0 <= i < |b| && b[i] == a[0];
      var j :| 0 <= j < |a| && a[j] == b[0];
      LessIsTotal(a[0], b[0]);
      assert a[0] == b[0];
      LessIsTotal(a[0], a[0]);
      assert a[0] !in a[1..] && a[0] !in b[1..];
      assert a == [a[0]] + a[1..] && b == [b[0]] + b[1..];
      assert forall k :: (k in a[1..] ==> k in a && k != a[0]) && (k in b[1..] ==> k in b && k != b[0]);
      OneSortedList(a[1..], b[1..]);
    }
  }

  // ----- Printing -----

  function HexDigit(n: nat): Unit
    requires n < 16
  {
    if n < 10 then 48 + n else 87 + n
  }

  /** A code unit as a backslash, a u and four lower-case hexadecimal digits. */
  function UnicodeEscape(u: Unit): Text {
    [BACKSLASH, LETTER_U, HexDigit(u / 4096), HexDigit(u / 256 % 16), HexDigit(u / 16 % 16), HexDigit(u % 16)]
  }

  predicate LeadSurrogate(u: Unit) { 0xD800 <= u < 0xDC00 }

  predicate TrailSurrogate(u: Unit) { 0xDC00 <= u < 0xE000 }

  /** The units escaped by a letter or by themselves, with what follows the backslash. */
  function ShortEscape(u: Unit): Option<Unit> {
    if u == QUOTE || u == BACKSLASH then Some(u)
    else if u == 8 then Some(98)
    else if u == 9 then Some(116)
    else if u == 10 then Some(110)
    else if u == 12 then Some(102)
    else if u == 13 then Some(114)
    else None
  }

  /** A unit on its own; a surrogate is escaped unless it is one of a pair. */
  function EscapeUnit(u: Unit): Text {
    if ShortEscape(u).Some? then [BACKSLASH, ShortEscape(u).value]
    else if u < 32 || LeadSurrogate(u) || TrailSurrogate(u) then UnicodeEscape(u)
    else [u]
  }

  function Escape(s: Text): Text {
    if s == [] then []
    else if |s| > 1 && LeadSurrogate(s[0]) && TrailSurrogate(s[1]) then [s[0], s[1]] + Escape(s[2..])
    else EscapeUnit(s[0]) + Escape(s[1..])
  }

  function Quoted(s: Text): Text { [QUOTE] + Escape(s) + [QUOTE] }

  /** The canonical text of a value. */
  function Print(v: Json): Text
    decreases v
  {
    match v
    case Null => NULL_TEXT
    case Bool(b) => if b then TRUE_TEXT else FALSE_TEXT
    case Num(t) => t
    case Str(s) => Quoted(s)
    case Arr(items) => [OPEN_BRACKET] + PrintItems(items) + [CLOSE_BRACKET]
    case Obj(ms) => [OPEN_BRACE] + PrintPairs(ms, Sort(Keys(ms))) + [CLOSE_BRACE]
  }

  function PrintItems(items: seq<Json>): Text
    decreases items
  {
    if items == [] then []
    else if |items| == 1 then Print(items[0])
    else Print(items[0]) + [COMMA] + PrintItems(items[1..])
  }

  /** The pairs under these keys, in this order. */
  function PrintPairs(ms: seq<Member>, ks: seq<Text>): Text
    requires forall k :: k in ks ==> k in Keys(ms)
    decreases ms, |ks|
  {
    if ks == [] then []
    else
      var pair := Quoted(ks[0]) + [COLON] + Print(At(ms, ks[0]));
      if |ks| == 1 then pair else pair + [COMMA] + PrintPairs(ms, ks[1..])
  }

  // ----- Reading back -----

  datatype Parsed<T> = Failed | Parsed(value: T, rest: Text)

  function HexValue(u: Unit): Option<nat> {
    if Digit(u) then Some(u - 48) else if 97 <= u <= 102 then Some(u - 87) else None
  }

  /** The unit four hexadecimal digits stand for. */
  function ReadHex(t: Text): (u: Option<Unit>)
    requires |t| == 4
  {
    var (a, b, c, d) := (HexValue(t[0]), HexValue(t[1]), HexValue(t[2]), HexValue(t[3]));
    if a.Some? && b.Some? && c.Some? && d.Some? && a.value < 16 && b.value < 16 && c.value < 16 && d.value < 16
    then Some(4096 * a.value + 256 * b.value + 16 * c.value + d.value) else None
  }

  function Unescape(u: Unit): Option<Unit> {
    if u == QUOTE || u == BACKSLASH then Some(u)
    else if u == 98 then Some(8)
    else if u == 116 then Some(9)
    else if u == 110 then Some(10)
    else if u == 102 then Some(12)
    else if u == 114 then Some(13)
    else None
  }

  function Prepend(u: Unit, r: Parsed<Text>): Parsed<Text> {
    if r.Parsed? then Parsed([u] + r.value, r.rest) else Failed
  }

  /** Reads a string from after its opening quote. */
  function ParseChars(t: Text): (r: Parsed<Text>)
    ensures r.Parsed? ==> |r.rest| < |t|
    decreases |t|
  {
    if t == [] then Failed
    else if t[0] == QUOTE then Parsed([], t[1..])
    else if t[0] != BACKSLASH then Prepend(t[0], ParseChars(t[1..]))
    else if |t| > 5 && t[1] == LETTER_U && ReadHex(t[2..6]).Some? then Prepend(ReadHex(t[2..6]).value, ParseChars(t[6..]))
    else if |t| > 1 && Unescape(t[1]).Some? then Prepend(Unescape(t[1]).value, ParseChars(t[2..]))
    else Failed
  }

  /** How many units a number at the head of a text takes. */
  function NumberLength(t: Text): (n: nat)
    ensures n <= |t|
  {
    if t == [] || !NumberUnit(t[0]) then 0 else 1 + NumberLength(t[1..])
  }

  /** Reads a value and leaves what follows it. */
  function ParseValue(t: Text): (r: Parsed<Json>)
    ensures r.Parsed? ==> |r.rest| < |t|
    decreases |t|, 0
  {
    if t == [] then Failed
    else if t[0] == QUOTE then
      var r := ParseChars(t[1..]);
      if r.Parsed? then Parsed(Str(r.value), r.rest) else Failed
    else if t[0] == OPEN_BRACKET then
      if |t| > 1 && t[1] == CLOSE_BRACKET then Parsed(Arr([]), t[2..])
      else
        var r := ParseItems(t[1..]);
        if r.Parsed? then Parsed(Arr(r.value), r.rest) else Failed
    else if t[0] == OPEN_BRACE then
      if |t| > 1 && t[1] == CLOSE_BRACE then Parsed(Obj([]), t[2..])
      else
        var r := ParseMembers(t[1..]);
        if r.Parsed? then Parsed(Obj(r.value), r.rest) else Failed
    else if NULL_TEXT <= t then Parsed(Null, t[|NULL_TEXT|..])
    else if TRUE_TEXT <= t then Parsed(Bool(true), t[|TRUE_TEXT|..])
    else if FALSE_TEXT <= t then Parsed(Bool(false), t[|FALSE_TEXT|..])
    else
      var n := NumberLength(t);
      if n == 0 then Failed else Parsed(Num(t[..n]), t[n..])
  }

  /** Reads the items of a non-empty array and its closing bracket. */
  function ParseItems(t: Text): (r: Parsed<seq<Json>>)
    ensures r.Parsed? ==> |r.rest| < |t|
    decreases |t|, 1
  {
    var v := ParseValue(t);
    if v.Failed? || v.rest == [] then Failed
    else if v.rest[0] == CLOSE_BRACKET then Parsed([v.value], v.rest[1..])
    else if v.rest[0] == COMMA then
      var more := ParseItems(v.rest[1..]);
      if more.Parsed? then Parsed([v.value] + more.value, more.rest) else Failed
    else Failed
  }

  /** Reads the members of a non-empty object and its closing brace. */
  function ParseMembers(t: Text): (r: Parsed<seq<Member>>)
    ensures r.Parsed? ==> |r.rest| < |t|
    decreases |t|, 1
  {
    var k := if t != [] && t[0] == QUOTE then ParseChars(t[1..]) else Failed;
    var v := if k.Parsed? && k.rest != [] && k.rest[0] == COLON then ParseValue(k.rest[1..]) else Failed;
    if v.Failed? || v.rest == [] then Failed
    else if v.rest[0] == CLOSE_BRACE then Parsed([Member(k.value, v.value)], v.rest[1..])
    else if v.rest[0] == COMMA then
      var more := ParseMembers(v.rest[1..]);
      if more.Parsed? then Parsed([Member(k.value, v.value)] + more.value, more.rest) else Failed
    else Failed
  }

  // ----- What the parser arrives at -----

  /** The value with the keys of every object sorted. */
  function Canonical(v: Json): Json
    decreases v
  {
    match v
    case Arr(items) => Arr(CanonicalItems(items))
    case Obj(ms) => Obj(CanonicalPairs(ms, Sort(Keys(ms))))
    case _ => v
  }

  function CanonicalItems(items: seq<Json>): (r: seq<Json>)
    ensures |r| == |items| && forall i :: 0 <= i < |items| ==> r[i] == Canonical(items[i])
    decreases items
  {
    if items == [] then [] else [Canonical(items[0])] + CanonicalItems(items[1..])
  }

  function CanonicalPairs(ms: seq<Member>, ks: seq<Text>): (r: seq<Member>)
    requires forall k :: k in ks ==> k in Keys(ms)
    ensures |r| == |ks| && forall i :: 0 <= i < |ks| ==> r[i] == Member(ks[i], Canonical(At(ms, ks[i])))
    decreases ms, |ks|
  {
    if ks == [] then [] else [Member(ks[0], Canonical(At(ms, ks[0])))] + CanonicalPairs(ms, ks[1..])
  }

  // ----- The parser inverts the printer -----

  lemma HexOfDigits(a: nat, b: nat, c: nat, d: nat)
    requires a < 16 && b < 16 && c < 16 && d < 16
    ensures ReadHex([HexDigit(a), HexDigit(b), HexDigit(c), HexDigit(d)]) == Some(4096 * a + 256 * b + 16 * c + d)
  {
  }

  lemma FourDigits(u: Unit)
    ensures u == 4096 * (u / 4096) + 256 * (u / 256 % 16) + 16 * (u / 16 % 16) + u % 16
  {
    DivideInTwo(u, 256, 16);
    DivideInTwo(u, 16, 16);
  }

  lemma HexOfEscape(u: Unit)
    ensures ReadHex(UnicodeEscape(u)[2..]) == Some(u)
  {
    hide HexDigit, ReadHex;
    var (a, b, c, d) := (u / 4096, u / 256 % 16, u / 16 % 16, u % 16);
    assert UnicodeEscape(u)[2..] == [HexDigit(a), HexDigit(b), HexDigit(c), HexDigit(d)];
    HexOfDigits(a, b, c, d);
    FourDigits(u);
  }

  lemma ReadRaw(u: Unit, tail: Text)
    requires u != QUOTE && u != BACKSLASH
    ensures ParseChars([u] + tail) == Prepend(u, ParseChars(tail))
  {
  }

  lemma ReadShort(u: Unit, tail: Text)
    requires ShortEscape(u).Some?
    ensures ParseChars([BACKSLASH, ShortEscape(u).value] + tail) == Prepend(u, ParseChars(tail))
  {
    assert ([BACKSLASH, ShortEscape(u).value] + tail)[2..] == tail;
  }

  lemma ReadUnicode(u: Unit, tail: Text)
    ensures ParseChars(UnicodeEscape(u) + tail) == Prepend(u, ParseChars(tail))
  {
    var t := UnicodeEscape(u) + tail;
    assert t[0] == BACKSLASH && t[1] == LETTER_U && t[2..6] == UnicodeEscape(u)[2..] && t[6..] == tail;
    hide UnicodeEscape, ReadHex;
    HexOfEscape(u);
  }

  lemma ReadUnit(u: Unit, tail: Text)
    ensures ParseChars(EscapeUnit(u) + tail) == Prepend(u, ParseChars(tail))
  {
    assert ShortEscape(u).None? ==> u != QUOTE && u != BACKSLASH;
    hide ParseChars, UnicodeEscape, ShortEscape, Prepend;
    if ShortEscape(u).Some? {
      ReadShort(u, tail);
    } else if u < 32 || LeadSurrogate(u) || TrailSurrogate(u) {
      ReadUnicode(u, tail);
    } else {
      ReadRaw(u, tail);
    }
  }

  lemma Regroup(a: Text, b: Text, c: Text)
    ensures (a + b) + c == a + (b + c)
  {
  }

  /** A string reads back as itself, whatever follows. */
  lemma {:induction false} ParseOfEscape(s: Text, rest: Text)
    ensures ParseChars(Escape(s) + ([QUOTE] + rest)) == Parsed(s, rest)
    decreases |s|
  {
    var end := [QUOTE] + rest;
    if s == [] {
      assert Escape(s) + end == end && end[1..] == rest;
    } else {
      hide ParseChars, EscapeUnit;
      if |s| > 1 && LeadSurrogate(s[0]) && TrailSurrogate(s[1]) {
        ParseOfEscape(s[2..], rest);
        ReadSurrogates(s[0], s[1], Escape(s[2..]) + end);
        Regroup([s[0], s[1]], Escape(s[2..]), end);
        assert s == [s[0]] + ([s[1]] + s[2..]);
      } else {
        ParseOfEscape(s[1..], rest);
        ReadUnit(s[0], Escape(s[1..]) + end);
        Regroup(EscapeUnit(s[0]), Escape(s[1..]), end);
        assert s == [s[0]] + s[1..];
      }
    }
  }

  lemma ReadSurrogates(u: Unit, w: Unit, tail: Text)
    requires LeadSurrogate(u) && TrailSurrogate(w)
    ensures ParseChars([u, w] + tail) == Prepend(u, Prepend(w, ParseChars(tail)))
  {
  }

  predicate Stops(rest: Text) { rest == [] || !NumberUnit(rest[0]) }

  lemma {:induction false} NumberEnds(n: Text, rest: Text)
    requires Stops(rest) && forall i :: 0 <= i < |n| ==> NumberUnit(n[i])
    ensures NumberLength(n + rest) == |n|
  {
    if n == [] {
      assert n + rest == rest;
    } else {
      assert (n + rest)[1..] == n[1..] + rest;
      NumberEnds(n[1..], rest);
    }
  }

  lemma ReadWord(word: Text, rest: Text)
    requires word == NULL_TEXT || word == TRUE_TEXT || word == FALSE_TEXT
    ensures ParseValue(word + rest) == Parsed(if word == NULL_TEXT then Null else Bool(word == TRUE_TEXT), rest)
  {
  }

  lemma ReadNumber(n: Text, rest: Text)
    requires WellFormed(Num(n)) && Stops(rest)
    ensures ParseValue(n + rest) == Parsed(Num(n), rest)
  {
    NumberEnds(n, rest);
    assert (n + rest)[..|n|] == n && (n + rest)[|n|..] == rest;
    assert (n + rest)[0] == n[0];
  }

  lemma QuotedOpens(s: Text, rest: Text)
    ensures Quoted(s) + rest == [QUOTE] + (Escape(s) + ([QUOTE] + rest))
  {
  }

  lemma ReadString(s: Text, rest: Text)
    ensures ParseValue(Quoted(s) + rest) == Parsed(Str(s), rest)
  {
    ParseOfEscape(s, rest);
    QuotedOpens(s, rest);
    assert (Quoted(s) + rest)[1..] == Escape(s) + ([QUOTE] + rest);
  }

  lemma Bracketed(open: Unit, body: Text, close: Unit, rest: Text)
    ensures var t := [open] + body + [close] + rest;
            && |t| > 1 && t[0] == open && t[1..] == body + ([close] + rest)
            && (if body == [] then t[1] == close && t[2..] == rest else t[1] == body[0])
  {
  }

  lemma ReadArray(body: Text, items: seq<Json>, rest: Text)
    requires if items == [] then body == [] else
               body != [] && body[0] != CLOSE_BRACKET && ParseItems(body + ([CLOSE_BRACKET] + rest)) == Parsed(items, rest)
    ensures ParseValue([OPEN_BRACKET] + body + [CLOSE_BRACKET] + rest) == Parsed(Arr(items), rest)
  {
    hide ParseItems, ParseMembers, ParseChars;
    Bracketed(OPEN_BRACKET, body, CLOSE_BRACKET, rest);
  }

  lemma ReadObject(body: Text, ms: seq<Member>, rest: Text)
    requires if ms == [] then body == [] else
               body != [] && body[0] == QUOTE && ParseMembers(body + ([CLOSE_BRACE] + rest)) == Parsed(ms, rest)
    ensures ParseValue([OPEN_BRACE] + body + [CLOSE_BRACE] + rest) == Parsed(Obj(ms), rest)
  {
    hide ParseItems, ParseMembers, ParseChars;
    Bracketed(OPEN_BRACE, body, CLOSE_BRACE, rest);
  }

  lemma LastItem(text: Text, v: Json, rest: Text)
    requires ParseValue(text + ([CLOSE_BRACKET] + rest)) == Parsed(v, [CLOSE_BRACKET] + rest)
    ensures ParseItems(text + ([CLOSE_BRACKET] + rest)) == Parsed([v], rest)
  {
  }

  lemma NextItem(text: Text, v: Json, more: Text, vs: seq<Json>, rest: Text)
    requires ParseValue(text + ([COMMA] + more)) == Parsed(v, [COMMA] + more)
    requires ParseItems(more) == Parsed(vs, rest)
    ensures ParseItems(text + [COMMA] + more) == Parsed([v] + vs, rest)
  {
    assert ([COMMA] + more)[1..] == more;
    Regroup(text, [COMMA], more);
    hide ParseValue;
  }

  lemma ReadPair(k: Text, text: Text, v: Json, rest: Text)
    requires ParseValue(text + rest) == Parsed(v, rest)
    ensures var t := Quoted(k) + [COLON] + text + rest;
            var key := ParseChars(t[1..]);
            t[0] == QUOTE && key == Parsed(k, [COLON] + (text + rest)) && key.rest[1..] == text + rest
  {
    var tail := [COLON] + (text + rest);
    ParseOfEscape(k, tail);
    hide ParseValue, ParseChars, Quoted, Escape;
    Regroup(Quoted(k) + [COLON], text, rest);
    Regroup(Quoted(k), [COLON], text + rest);
    QuotedOpens(k, tail);
    assert ([QUOTE] + (Escape(k) + ([QUOTE] + tail)))[1..] == Escape(k) + ([QUOTE] + tail);
    assert tail[1..] == text + rest;
  }

  lemma LastPair(k: Text, text: Text, v: Json, rest: Text)
    requires ParseValue(text + ([CLOSE_BRACE] + rest)) == Parsed(v, [CLOSE_BRACE] + rest)
    ensures ParseMembers(Quoted(k) + [COLON] + text + ([CLOSE_BRACE] + rest)) == Parsed([Member(k, v)], rest)
  {
    ReadPair(k, text, v, [CLOSE_BRACE] + rest);
    assert ([CLOSE_BRACE] + rest)[1..] == rest;
    hide ParseValue, ParseChars, Quoted;
  }

  lemma NextPair(k: Text, text: Text, v: Json, more: Text, ms: seq<Member>, rest: Text)
    requires ParseValue(text + ([COMMA] + more)) == Parsed(v, [COMMA] + more)
    requires ParseMembers(more) == Parsed(ms, rest)
    ensures ParseMembers(Quoted(k) + [COLON] + text + [COMMA] + more) == Parsed([Member(k, v)] + ms, rest)
  {
    ReadPair(k, text, v, [COMMA] + more);
    assert ([COMMA] + more)[1..] == more;
    Regroup(Quoted(k) + [COLON] + text, [COMMA], more);
    hide ParseValue, ParseChars, Quoted;
  }

  lemma AtIsWellFormed(ms: seq<Member>, k: Text)
    requires k in Keys(ms) && forall i :: 0 <= i < |ms| ==> WellFormed(ms[i].value)
    ensures WellFormed(At(ms, k))
  {
  }

  /** No value starts with a closing bracket. */
  lemma PrintStarts(v: Json)
    requires WellFormed(v)
    ensures Print(v) != [] && Print(v)[0] != CLOSE_BRACKET
  {
  }

  /** The parser inverts the printer, before any following text that does not continue a number. */
  lemma {:induction false} ParseOfPrint(v: Json, rest: Text)
    requires WellFormed(v) && (v.Num? ==> Stops(rest))
    ensures ParseValue(Print(v) + rest) == Parsed(Canonical(v), rest)
    decreases v
  {
    match v {
      case Null => ReadWord(NULL_TEXT, rest);
      case Bool(b) => ReadWord(if b then TRUE_TEXT else FALSE_TEXT, rest);
      case Num(t) => ReadNumber(t, rest);
      case Str(s) => ReadString(s, rest);
      case Arr(items) =>
        ParseOfItems(items, rest);
        ReadArray(PrintItems(items), CanonicalItems(items), rest);
      case Obj(ms) =>
        var ks := Sort(Keys(ms));
        ParseOfPairs(ms, ks, rest);
        ReadObject(PrintPairs(ms, ks), CanonicalPairs(ms, ks), rest);
    }
  }

  lemma {:induction false} ParseOfItems(items: seq<Json>, rest: Text)
    requires forall i :: 0 <= i < |items| ==> WellFormed(items[i])
    ensures items != [] ==>
      var text := PrintItems(items);
      text != [] && text[0] != CLOSE_BRACKET && ParseItems(text + ([CLOSE_BRACKET] + rest)) == Parsed(CanonicalItems(items), rest)
    decreases items
  {
    if items != [] {
      var (v, tail, end) := (items[0], items[1..], [CLOSE_BRACKET] + rest);
      assert CanonicalItems(items) == [Canonical(v)] + CanonicalItems(tail);
      assert PrintItems(items) == if |items| == 1 then Print(v) else Print(v) + [COMMA] + PrintItems(tail);
      assert |items| == 1 ==> CanonicalItems(items) == [Canonical(v)];
      PrintStarts(v);
      hide ParseValue, ParseItems, Canonical, CanonicalItems, Print, PrintItems;
      if |items| == 1 {
        ParseOfPrint(v, end);
        LastItem(Print(v), Canonical(v), rest);
      } else {
        var more := PrintItems(tail) + end;
        ParseOfPrint(v, [COMMA] + more);
        ParseOfItems(tail, rest);
        NextItem(Print(v), Canonical(v), more, CanonicalItems(tail), rest);
        Regroup(Print(v) + [COMMA], PrintItems(tail), end);
      }
    }
  }

  lemma {:induction false} ParseOfPairs(ms: seq<Member>, ks: seq<Text>, rest: Text)
    requires (forall k :: k in ks ==> k in Keys(ms)) && forall i :: 0 <= i < |ms| ==> WellFormed(ms[i].value)
    ensures ks != [] ==>
      var text := PrintPairs(ms, ks);
      text != [] && text[0] == QUOTE && ParseMembers(text + ([CLOSE_BRACE] + rest)) == Parsed(CanonicalPairs(ms, ks), rest)
    decreases ms, |ks|
  {
    if ks != [] {
      var (k, v, end) := (ks[0], At(ms, ks[0]), [CLOSE_BRACE] + rest);
      var pair := Quoted(k) + [COLON] + Print(v);
      AtIsWellFormed(ms, k);
      assert CanonicalPairs(ms, ks) == [Member(k, Canonical(v))] + CanonicalPairs(ms, ks[1..]);
      assert PrintPairs(ms, ks) == if |ks| == 1 then pair else pair + [COMMA] + PrintPairs(ms, ks[1..]);
      assert |ks| == 1 ==> CanonicalPairs(ms, ks) == [Member(k, Canonical(v))];
      assert pair[0] == QUOTE;
      hide ParseValue, ParseMembers, Canonical, CanonicalPairs, Print, PrintPairs, Quoted;
      if |ks| == 1 {
        ParseOfPrint(v, end);
        LastPair(k, Print(v), Canonical(v), rest);
      } else {
        var more := PrintPairs(ms, ks[1..]) + end;
        ParseOfPrint(v, [COMMA] + more);
        ParseOfPairs(ms, ks[1..], rest);
        NextPair(k, Print(v), Canonical(v), more, CanonicalPairs(ms, ks[1..]), rest);
        Regroup(pair + [COMMA], PrintPairs(ms, ks[1..]), end);
      }
    }
  }

  // ----- Same text, same value up to key order -----

  lemma CanonicalAt(ms: seq<Member>, ks: seq<Text>, k: Text)
    requires forall x :: x in ks ==> x in Keys(ms)
    ensures k in Keys(CanonicalPairs(ms, ks)) <==> k in ks
    ensures k in ks ==> At(CanonicalPairs(ms, ks), k) == Canonical(At(ms, k))
  {
  }

  /** The value read back is the value printed, up to key order. */
  lemma {:induction false} CanonicalIsEquivalent(v: Json)
    ensures Equivalent(v, Canonical(v))
    decreases v
  {
    if v.Arr? {
      forall i | 0 <= i < |v.items| ensures Equivalent(v.items[i], Canonical(v.items[i])) {
        CanonicalIsEquivalent(v.items[i]);
      }
    } else if v.Obj? {
      var ms := v.members;
      forall k
        ensures k in Keys(Canonical(v).members) <==> k in Keys(ms)
        ensures k in Keys(ms) ==> Equivalent(At(ms, k), At(Canonical(v).members, k))
      {
        CanonicalAt(ms, Sort(Keys(ms)), k);
        if k in Keys(ms) { CanonicalIsEquivalent(At(ms, k)); }
      }
    }
  }

  lemma {:induction false} SameCanonical(v: Json, w: Json)
    requires Canonical(v) == Canonical(w)
    ensures Equivalent(v, w)
    decreases v
  {
    if v.Arr? && w.Arr? {
      assert CanonicalItems(v.items) == CanonicalItems(w.items);
      forall i | 0 <= i < |v.items| ensures Equivalent(v.items[i], w.items[i]) {
        SameCanonical(v.items[i], w.items[i]);
      }
    } else if v.Obj? && w.Obj? {
      var (ms, ns) := (v.members, w.members);
      forall k
        ensures k in Keys(ms) <==> k in Keys(ns)
        ensures k in Keys(ms) ==> Equivalent(At(ms, k), At(ns, k))
      {
        CanonicalAt(ms, Sort(Keys(ms)), k);
        CanonicalAt(ns, Sort(Keys(ns)), k);
        if k in Keys(ms) { SameCanonical(At(ms, k), At(ns, k)); }
      }
    }
  }

  lemma {:induction false} SameItems(a: seq<Json>, b: seq<Json>)
    requires |a| == |b| && forall i :: 0 <= i < |a| ==> Print(a[i]) == Print(b[i])
    ensures PrintItems(a) == PrintItems(b)
  {
    hide Print;
    if a != [] { SameItems(a[1..], b[1..]); }
  }

  lemma {:induction false} SamePairs(ms: seq<Member>, ns: seq<Member>, ks: seq<Text>)
    requires forall k :: k in ks ==> k in Keys(ms) && k in Keys(ns) && Print(At(ms, k)) == Print(At(ns, k))
    ensures PrintPairs(ms, ks) == PrintPairs(ns, ks)
    decreases |ks|
  {
    hide Print, At, Keys;
    if ks != [] { SamePairs(ms, ns, ks[1..]); }
  }

  lemma {:induction false} EquivalentPrint(v: Json, w: Json)
    requires WellFormed(v) && WellFormed(w) && Equivalent(v, w)
    ensures Print(v) == Print(w)
    decreases v
  {
    if v.Arr? && w.Arr? {
      forall i | 0 <= i < |v.items| ensures Print(v.items[i]) == Print(w.items[i]) {
        EquivalentPrint(v.items[i], w.items[i]);
      }
      SameItems(v.items, w.items);
    } else if v.Obj? && w.Obj? {
      var (ms, ns) := (v.members, w.members);
      SortSorts(ms);
      SortSorts(ns);
      OneSortedList(Sort(Keys(ms)), Sort(Keys(ns)));
      forall k | k in Keys(ms) ensures Print(At(ms, k)) == Print(At(ns, k)) {
        AtIsWellFormed(ms, k);
        AtIsWellFormed(ns, k);
        EquivalentPrint(At(ms, k), At(ns, k));
      }
      SamePairs(ms, ns, Sort(Keys(ms)));
    }
  }

  /** Two values have the same canonical text exactly when they are equal up to key order. */
  lemma SameText(v: Json, w: Json)
    requires WellFormed(v) && WellFormed(w)
    ensures Print(v) == Print(w) <==> Equivalent(v, w)
  {
    if Equivalent(v, w) {
      EquivalentPrint(v, w);
    } else {
      ParseOfPrint(v, []);
      ParseOfPrint(w, []);
      assert Print(v) + [] == Print(v) && Print(w) + [] == Print(w);
      if Canonical(v) == Canonical(w) { SameCanonical(v, w); }
    }
  }

  // ----- Signatures -----

  /** A key of at least 32 bytes, written in hexadecimal. */
  predicate Configured(key: Option<Text>) { key.Some? && |key.value| >= 64 }

  /** The signature of an event: 68 zeros when no key is configured. */
  function HmacSign(mac: (Text, Text) -> Text, key: Option<Text>, event: Json): Text {
    if Configured(key) then mac(key.value, Print(event)) else seq(68, _ => 48)
  }

  /** With a key and a code that separates the two texts, equal signatures are equal events; without a key all are equal. */
  lemma SignaturesSeparate(mac: (Text, Text) -> Text, key: Option<Text>, v: Json, w: Json)
    requires WellFormed(v) && WellFormed(w)
    requires Configured(key) && mac(key.value, Print(v)) == mac(key.value, Print(w)) ==> Print(v) == Print(w)
    ensures HmacSign(mac, key, v) == HmacSign(mac, key, w) <==> !Configured(key) || Equivalent(v, w)
  {
    SameText(v, w);
  }
}
