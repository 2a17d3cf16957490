/**
 What the canonical text looks like, character by character: the words, the
 punctuation, the order of keys and the escapes.
 */
module CanonicalText {
  import opened Prelude
  import opened CanonicalJson

  predicate IsAscii(s: string) { forall i :: 0 <= i < |s| ==> s[i] < 128 as char }

  /** Characters as code units. */
  function Ascii(s: string): (t: Text)
    requires IsAscii(s)
    ensures |t| == |s| && forall i :: 0 <= i < |s| ==> t[i] == s[i] as int
  {
    seq(|s|, i requires 0 <= i < |s| => s[i] as int)
  }

  lemma WordsAre()
    ensures Print(Null) == Ascii("null") && Print(Bool(true)) == Ascii("true") && Print(Bool(false)) == Ascii("false")
    ensures Print(Arr([])) == Ascii("[]") && Print(Obj([])) == Ascii("{}")
  {
  }

  /** Numbers as they are, strings escaped between quotes. */
  lemma ScalarsAre(t: Text, s: Text)
    ensures Print(Num(t)) == t
    ensures Print(Str(s)) == Ascii("\"") + Escape(s) + Ascii("\"")
  {
    assert Ascii("\"") == [QUOTE];
  }

  // ----- Arrays and objects -----

  /** The parts in their order, with commas between them. */
  function Joined(parts: seq<Text>): Text {
    if parts == [] then []
    else if |parts| == 1 then parts[0]
    else parts[0] + Ascii(",") + Joined(parts[1..])
  }

  function ItemTexts(items: seq<Json>): seq<Text> { seq(|items|, i requires 0 <= i < |items| => Print(items[i])) }

  function PairText(ms: seq<Member>, k: Text): Text
    requires k in Keys(ms)
  {
    Ascii("\"") + Escape(k) + Ascii("\"") + Ascii(":") + Print(At(ms, k))
  }

  function PairTexts(ms: seq<Member>, ks: seq<Text>): seq<Text>
    requires forall k :: k in ks ==> k in Keys(ms)
  {
    seq(|ks|, i requires 0 <= i < |ks| => PairText(ms, ks[i]))
  }

  lemma {:induction false} ItemsAreJoined(items: seq<Json>)
    ensures PrintItems(items) == Joined(ItemTexts(items))
  {
    hide Print;
    assert Ascii(",") == [COMMA];
    if |items| > 1 {
      ItemsAreJoined(items[1..]);
      assert ItemTexts(items)[1..] == ItemTexts(items[1..]);
    }
  }

  lemma {:induction false} PairsAreJoined(ms: seq<Member>, ks: seq<Text>)
    requires forall k :: k in ks ==> k in Keys(ms)
    ensures PrintPairs(ms, ks) == Joined(PairTexts(ms, ks))
    decreases |ks|
  {
    hide Print, Escape, At, Keys;
    assert Ascii(",") == [COMMA] && Ascii(":") == [COLON] && Ascii("\"") == [QUOTE];
    if |ks| > 1 {
      PairsAreJoined(ms, ks[1..]);
      assert PairTexts(ms, ks)[1..] == PairTexts(ms, ks[1..]);
    }
  }

  /** An array is its items in their order, between brackets. */
  lemma ArrayText(items: seq<Json>)
    ensures Print(Arr(items)) == Ascii("[") + Joined(ItemTexts(items)) + Ascii("]")
  {
    hide PrintItems, Joined, ItemTexts;
    ItemsAreJoined(items);
    assert Ascii("[") == [OPEN_BRACKET] && Ascii("]") == [CLOSE_BRACKET];
  }

  /** The first code unit in which two texts differ is the smaller one in a, or a is the beginning of b. */
  ghost predicate Precedes(a: Text, b: Text) {
    exists p :: 0 <= p <= |a| && p < |b| && a[..p] == b[..p] && (p == |a| || a[p] < b[p])
  }

  lemma {:induction false} LessIsPrecedes(a: Text, b: Text)
    ensures Less(a, b) <==> Precedes(a, b)
  {
    if a != [] && b != [] && a[0] == b[0] {
      LessIsPrecedes(a[1..], b[1..]);
      if Precedes(a[1..], b[1..]) {
        var p :| 0 <= p <= |a[1..]| && p < |b[1..]| && a[1..][..p] == b[1..][..p] && (p == |a[1..]| || a[1..][p] < b[1..][p]);
        assert a[..p + 1] == [a[0]] + a[1..][..p] && b[..p + 1] == [b[0]] + b[1..][..p];
      }
      if Precedes(a, b) {
        var p :| 0 <= p <= |a| && p < |b| && a[..p] == b[..p] && (p == |a| || a[p] < b[p]);
        assert a[1..][..p - 1] == a[..p][1..] && b[1..][..p - 1] == b[..p][1..];
      }
    } else if Less(a, b) {
      assert a[..0] == b[..0];
    }
  }

  /** An object is its pairs between braces, each key before its value, the keys in increasing order of their code units. */
  lemma ObjectText(ms: seq<Member>, ks: seq<Text>)
    requires DistinctKeys(ms) && forall k :: k in ks <==> k in Keys(ms)
    requires forall i, j :: 0 <= i < j < |ks| ==> Precedes(ks[i], ks[j])
    ensures Print(Obj(ms)) == Ascii("{") + Joined(PairTexts(ms, ks)) + Ascii("}")
  {
    hide PrintPairs, Joined, PairTexts, Keys, Sort, Precedes, Less;
    forall i, j | 0 <= i < j < |ks|
      ensures Less(ks[i], ks[j])
    {
      LessIsPrecedes(ks[i], ks[j]);
    }
    SortSorts(ms);
    OneSortedList(ks, Sort(Keys(ms)));
    PairsAreJoined(ms, ks);
    assert Ascii("{") == [OPEN_BRACE] && Ascii("}") == [CLOSE_BRACE];
  }

  // ----- Escapes -----

  /** The six short escapes. */
  lemma ShortEscapes()
    ensures EscapeUnit(34) == Ascii("\\\"") && EscapeUnit(92) == Ascii("\\\\")
    ensures EscapeUnit(8) == Ascii("\\b") && EscapeUnit(9) == Ascii("\\t") && EscapeUnit(10) == Ascii("\\n")
    ensures EscapeUnit(12) == Ascii("\\f") && EscapeUnit(13) == Ascii("\\r")
  {
  }

  /** Other control characters, and surrogates on their own, in four lower-case hexadecimal digits; the rest as they are. */
  lemma OtherEscapes(u: Unit)
    requires u !in {34, 92, 8, 9, 10, 12, 13}
    ensures var digits := Ascii("0123456789abcdef");
            EscapeUnit(u) == if u < 32 || 0xD800 <= u < 0xE000
                             then Ascii("\\u") + [digits[u / 4096], digits[u / 256 % 16], digits[u / 16 % 16], digits[u % 16]]
                             else [u]
  {
    assert Ascii("\\u") == [BACKSLASH, LETTER_U];
    HexDigitsAre(u / 4096);
    HexDigitsAre(u / 256 % 16);
    HexDigitsAre(u / 16 % 16);
    HexDigitsAre(u % 16);
    hide HexDigit, Ascii;
  }

  lemma HexDigitsAre(n: nat)
    requires n < 16
    ensures HexDigit(n) == Ascii("0123456789abcdef")[n]
  {
  }

  /** Unit by unit, but that a surrogate pair stays as it is. */
  lemma StringText(u: Unit, w: Unit, s: Text)
    ensures Escape([]) == []
    ensures 0xD800 <= u < 0xDC00 <= w < 0xE000 ==> Escape([u, w] + s) == [u, w] + Escape(s)
    ensures !(0xD800 <= u < 0xDC00 <= w < 0xE000) ==> Escape([u, w] + s) == EscapeUnit(u) + Escape([w] + s)
    ensures Escape([u]) == EscapeUnit(u)
  {
    hide EscapeUnit;
    assert ([u, w] + s)[2..] == s && ([u, w] + s)[1..] == [w] + s;
    assert [u][1..] == [];
  }

  /** A signature is the code of the canonical text; with no key of 64 hexadecimal digits, 68 zeros. */
  lemma SignatureIs(mac: (Text, Text) -> Text, key: Option<Text>, event: Json)
    ensures key.Some? && |key.value| >= 64 ==> HmacSign(mac, key, event) == mac(key.value, Print(event))
    ensures key.None? || |key.value| < 64 ==>
      |HmacSign(mac, key, event)| == 68 && forall i :: 0 <= i < 68 ==> HmacSign(mac, key, event)[i] == '0' as int
  {
  }
}
