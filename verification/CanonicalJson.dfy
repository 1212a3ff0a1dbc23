/** The canonical text of a JSON value: object keys sorted, no white space. Two values have the same text exactly when
    they are equal with the order of object keys ignored. */
module CanonicalJson {

  /** A UTF-16 code unit; a JavaScript string is a sequence of them, paired surrogates or not. */
  newtype CodeUnit = u: int | 0 <= u < 0x10000

  type Text = seq<CodeUnit>

  datatype Json =
    | Null
    | Bool(b: bool)
    | Num(numeral: Text)
    | Str(s: Text)
    | Arr(items: seq<Json>)
    | Obj(members: seq<Member>)

  datatype Member = Member(key: Text, value: Json)

  const QUOTE: CodeUnit := 34
  const COMMA: CodeUnit := 44
  const COLON: CodeUnit := 58
  const OPEN_BRACKET: CodeUnit := 91
  const BACKSLASH: CodeUnit := 92
  const CLOSE_BRACKET: CodeUnit := 93
  const OPEN_BRACE: CodeUnit := 123
  const CLOSE_BRACE: CodeUnit := 125

  const NULL_TEXT: Text := [110, 117, 108, 108]
  const TRUE_TEXT: Text := [116, 114, 117, 101]
  const FALSE_TEXT: Text := [102, 97, 108, 115, 101]

  predicate Digit(u: CodeUnit) {
    48 <= u <= 57
  }

  /** Digits, minus, plus, point and the exponent's letter. */
  predicate NumeralUnit(u: CodeUnit) {
    Digit(u) || u == 45 || u == 43 || u == 46 || u == 101
  }

  /** The texts that printing a finite number can give. */
  predicate Numeral(t: Text) {
    |t| > 0 && (Digit(t[0]) || t[0] == 45) && forall i | 0 <= i < |t| :: NumeralUnit(t[i])
  }

  /** Numbers are given by their printed text, and no object has a key twice. */
  predicate WellFormed(v: Json) {
    match v
    case Num(t) => Numeral(t)
    case Arr(items) => forall i | 0 <= i < |items| :: WellFormed(items[i])
    case Obj(ms) =>
      && (forall i, j | 0 <= i < j < |ms| :: ms[i].key != ms[j].key)
      && forall i | 0 <= i < |ms| :: WellFormed(ms[i].value)
    case _ => true
  }

  /** Equality with the order of object keys ignored. */
  ghost predicate SameValue(a: Json, b: Json)
    decreases a
  {
    match (a, b)
    case (Arr(xs), Arr(ys)) =>
      |xs| == |ys| && forall i | 0 <= i < |xs| :: SameValue(xs[i], ys[i])
    case (Obj(ms), Obj(ns)) =>
      |ms| == |ns| && forall i | 0 <= i < |ms| :: SameMember(ms[i], ns)
    case _ => a == b && !a.Arr? && !a.Obj?
  }

  ghost predicate SameMember(m: Member, ns: seq<Member>)
    decreases m
  {
    exists j | 0 <= j < |ns| :: m.key == ns[j].key && SameValue(m.value, ns[j].value)
  }

  // ---- the printer ----

  predicate HighSurrogate(u: CodeUnit) {
    0xD800 <= u < 0xDC00
  }

  predicate LowSurrogate(u: CodeUnit) {
    0xDC00 <= u < 0xE000
  }

  function HexDigit(n: CodeUnit): CodeUnit
    requires n < 16
  {
    if n < 10 then 48 + n else 87 + n
  }

  function UnicodeEscape(u: CodeUnit): Text {
    [BACKSLASH, 117, HexDigit(u / 4096), HexDigit(u / 256 % 16), HexDigit(u / 16 % 16), HexDigit(u % 16)]
  }

  function EscapeUnit(u: CodeUnit): Text {
    if u == QUOTE || u == BACKSLASH then [BACKSLASH, u]
    else if u == 8 then [BACKSLASH, 98]
    else if u == 9 then [BACKSLASH, 116]
    else if u == 10 then [BACKSLASH, 110]
    else if u == 12 then [BACKSLASH, 102]
    else if u == 13 then [BACKSLASH, 114]
    else if u < 32 || HighSurrogate(u) || LowSurrogate(u) then UnicodeEscape(u)
    else [u]
  }

  predicate StartsWithPair(s: Text) {
    |s| >= 2 && HighSurrogate(s[0]) && LowSurrogate(s[1])
  }

  /** How many units of a non-empty string are printed together: a surrogate pair, or one unit. */
  function TokenSize(s: Text): nat
    requires s != []
  {
    if StartsWithPair(s) then 2 else 1
  }

  /** A surrogate pair is printed as it is, a surrogate on its own as an escape. */
  function TokenText(s: Text): Text
    requires s != []
  {
    if StartsWithPair(s) then s[..2] else EscapeUnit(s[0])
  }

  function Escape(s: Text): Text {
    if s == [] then [] else TokenText(s) + Escape(s[TokenSize(s)..])
  }

  function Quote(s: Text): Text {
    [QUOTE] + Escape(s) + [QUOTE]
  }

  /** JavaScript's order of strings. */
  predicate Less(a: Text, b: Text) {
    b != [] && (a == [] || a[0] < b[0] || (a[0] == b[0] && Less(a[1..], b[1..])))
  }

  /** A key with the canonical text of its value. */
  datatype Entry = Entry(key: Text, text: Text)

  function Insert(e: Entry, s: seq<Entry>): (r: seq<Entry>)
    ensures multiset(r) == multiset(s) + multiset{e}
  {
    if s == [] then [e]
    else if Less(s[0].key, e.key) then
      assert s == [s[0]] + s[1..];
      [s[0]] + Insert(e, s[1..])
    else [e] + s
  }

  function SortEntries(s: seq<Entry>): (r: seq<Entry>)
    ensures multiset(r) == multiset(s)
  {
    if s == [] then [] else
    assert s == [s[0]] + s[1..];
    Insert(s[0], SortEntries(s[1..]))
  }

  function Join(pieces: seq<Text>): Text {
    if pieces == [] then []
    else if |pieces| == 1 then pieces[0]
    else pieces[0] + [COMMA] + Join(pieces[1..])
  }

  function EntryText(e: Entry): Text {
    Quote(e.key) + [COLON] + e.text
  }

  function Canonicalize(v: Json): Text
    decreases v, 2
  {
    match v
    case Null => NULL_TEXT
    case Bool(b) => if b then TRUE_TEXT else FALSE_TEXT
    case Num(t) => t
    case Str(s) => Quote(s)
    case Arr(_) => [OPEN_BRACKET] + Join(Pieces(v)) + [CLOSE_BRACKET]
    case Obj(_) => [OPEN_BRACE] + Join(Pieces(v)) + [CLOSE_BRACE]
  }

  predicate Container(v: Json) {
    v.Arr? || v.Obj?
  }

  /** The texts between the commas. */
  function Pieces(v: Json): seq<Text>
    requires Container(v)
    decreases v, 1
  {
    match v
    case Arr(items) => seq(|items|, i requires 0 <= i < |items| => Canonicalize(items[i]))
    case Obj(_) =>
      var s := SortEntries(Entries(v));
      seq(|s|, i requires 0 <= i < |s| => EntryText(s[i]))
  }

  function Entries(v: Json): seq<Entry>
    requires v.Obj?
    decreases v, 0
  {
    seq(|v.members|, i requires 0 <= i < |v.members| => Entry(v.members[i].key, Canonicalize(v.members[i].value)))
  }

  // ---- the order of strings ----

  lemma {:induction false} LessTotal(a: Text, b: Text)
    ensures Less(a, b) || a == b || Less(b, a)
    ensures !(Less(a, b) && Less(b, a)) && !Less(a, a)
  {
    if a != [] && b != [] && a[0] == b[0] {
      LessTotal(a[1..], b[1..]);
      assert a == [a[0]] + a[1..] && b == [b[0]] + b[1..];
    }
    if a != [] {
      LessIrreflexive(a);
    }
  }

  lemma {:induction false} LessIrreflexive(a: Text)
    ensures !Less(a, a)
  {
    if a != [] { LessIrreflexive(a[1..]); }
  }

  lemma {:induction false} LessTransitive(a: Text, b: Text, c: Text)
    requires Less(a, b) && Less(b, c)
    ensures Less(a, c)
  {
    if a != [] && a[0] == b[0] == c[0] {
      LessTransitive(a[1..], b[1..], c[1..]);
    }
  }

  /** Which is: at the first difference the lesser unit comes first, and a prefix comes before what it is a prefix
      of. */
  lemma {:induction false} LessMeans(a: Text, b: Text)
    ensures Less(a, b) <==>
              exists k: nat :: && k <= |a| && k < |b| && a[..k] == b[..k] && (k < |a| ==> a[k] < b[k])
  {
    if Less(a, b) {
      var k := FirstDifference(a, b);
    } else if k: nat :| k <= |a| && k < |b| && a[..k] == b[..k] && (k < |a| ==> a[k] < b[k]) {
      DifferenceIsLess(a, b, k);
    }
  }

  lemma {:induction false} FirstDifference(a: Text, b: Text) returns (k: nat)
    requires Less(a, b)
    ensures k <= |a| && k < |b| && a[..k] == b[..k] && (k < |a| ==> a[k] < b[k])
  {
    k := 0;
    if a != [] && a[0] == b[0] {
      var m := FirstDifference(a[1..], b[1..]);
      k := m + 1;
      assert a[..k] == [a[0]] + a[1..][..m] && b[..k] == [b[0]] + b[1..][..m];
    }
  }

  lemma {:induction false} DifferenceIsLess(a: Text, b: Text, k: nat)
    requires k <= |a| && k < |b| && a[..k] == b[..k] && (k < |a| ==> a[k] < b[k])
    ensures Less(a, b)
  {
    if k > 0 {
      assert a[0] == a[..k][0] && b[0] == b[..k][0];
      assert a[1..][..k - 1] == a[..k][1..] && b[1..][..k - 1] == b[..k][1..];
      DifferenceIsLess(a[1..], b[1..], k - 1);
    }
  }

  ghost predicate StrictlySorted(s: seq<Entry>) {
    forall i, j | 0 <= i < j < |s| :: Less(s[i].key, s[j].key)
  }

  ghost predicate DistinctKeys(s: seq<Entry>) {
    forall i, j | 0 <= i < j < |s| :: s[i].key != s[j].key
  }

  lemma {:induction false} InsertSorts(e: Entry, s: seq<Entry>)
    requires StrictlySorted(s) && forall x | x in s :: x.key != e.key
    ensures StrictlySorted(Insert(e, s))
  {
    if s != [] {
      LessTotal(s[0].key, e.key);
      if Less(s[0].key, e.key) {
        InsertSorts(e, s[1..]);
        InsertedAbove(e, s);
      } else {
        forall j | 0 <= j < |s| ensures Less(e.key, s[j].key) {
          if j > 0 { LessTransitive(e.key, s[0].key, s[j].key); }
        }
      }
    }
  }

  lemma InsertedAbove(e: Entry, s: seq<Entry>)
    requires s != [] && StrictlySorted(s) && Less(s[0].key, e.key)
    ensures forall x | x in Insert(e, s[1..]) :: Less(s[0].key, x.key)
  {
    var rest := Insert(e, s[1..]);
    forall x | x in rest ensures Less(s[0].key, x.key) {
      assert x in multiset(rest);
    }
  }

  lemma {:induction false} SortSorts(s: seq<Entry>)
    requires DistinctKeys(s)
    ensures StrictlySorted(SortEntries(s))
  {
    if s != [] {
      SortSorts(s[1..]);
      var rest := SortEntries(s[1..]);
      forall x | x in rest ensures x.key != s[0].key {
        assert x in multiset(s[1..]);
        var i :| 0 <= i < |s[1..]| && s[1..][i] == x;
        assert s[i + 1] == x;
      }
      InsertSorts(s[0], rest);
    }
  }

  lemma SortedHeads(s: seq<Entry>, t: seq<Entry>)
    requires StrictlySorted(s) && StrictlySorted(t) && multiset(s) == multiset(t) && s != [] && t != []
    ensures s[0] == t[0]
  {
    assert s[0] in multiset(t) && t[0] in multiset(s);
    var i :| 0 <= i < |t| && t[i] == s[0];
    var j :| 0 <= j < |s| && s[j] == t[0];
    LessTotal(s[0].key, t[0].key);
  }

  /** A strictly sorted sequence is determined by its elements. */
  lemma {:induction false} SortedIsUnique(s: seq<Entry>, t: seq<Entry>)
    requires StrictlySorted(s) && StrictlySorted(t) && multiset(s) == multiset(t)
    ensures s == t
  {
    assert |s| == |multiset(s)| == |multiset(t)| == |t|;
    if s != [] {
      SortedHeads(s, t);
      WithoutHead(s);
      WithoutHead(t);
      SortedIsUnique(s[1..], t[1..]);
    }
  }

  lemma WithoutHead(s: seq<Entry>)
    requires s != []
    ensures s == [s[0]] + s[1..] && multiset(s[1..]) == multiset(s) - multiset{s[0]}
  {
    assert s == [s[0]] + s[1..];
  }

  // ---- the printer loses nothing ----

  lemma ConcatSplit(a: Text, x: Text, b: Text, y: Text)
    requires a + x == b + y && |a| == |b|
    ensures a == b && x == y
  {
    assert a == (a + x)[..|a|] && b == (b + y)[..|b|];
    assert x == (a + x)[|a|..] && y == (b + y)[|b|..];
  }

  lemma HexDigitInjective(m: CodeUnit, n: CodeUnit)
    requires m < 16 && n < 16 && HexDigit(m) == HexDigit(n)
    ensures m == n
  {}

  lemma HexDigits(u: CodeUnit)
    ensures u / 256 == 16 * (u / 4096) + u / 256 % 16
    ensures u == 256 * (u / 256) + 16 * (u / 16 % 16) + u % 16
  {
    assert u / 16 == 16 * (u / 256) + u / 16 % 16;
  }

  lemma UnicodeEscapeInjective(u: CodeUnit, v: CodeUnit)
    requires UnicodeEscape(u) == UnicodeEscape(v)
    ensures u == v
  {
    assert forall i | 2 <= i < 6 :: UnicodeEscape(u)[i] == UnicodeEscape(v)[i];
    HexDigitInjective(u / 4096, v / 4096);
    HexDigitInjective(u / 256 % 16, v / 256 % 16);
    HexDigitInjective(u / 16 % 16, v / 16 % 16);
    HexDigitInjective(u % 16, v % 16);
    HexDigits(u);
    HexDigits(v);
  }

  /** Printed units are self-delimiting: the first one of a text can be read off in one way only. */
  lemma UnitUnique(u: CodeUnit, v: CodeUnit, x: Text, y: Text)
    requires EscapeUnit(u) + x == EscapeUnit(v) + y
    ensures u == v && x == y
  {
    var a, b := EscapeUnit(u), EscapeUnit(v);
    assert a[0] == (a + x)[0] == (b + y)[0] == b[0];
    assert |a| > 1 ==> |b| > 1 && a[1] == (a + x)[1] == (b + y)[1] == b[1];
    assert |a| == |b|;
    ConcatSplit(a, x, b, y);
    if |a| == 6 { UnicodeEscapeInjective(u, v); }
  }

  lemma TokenUnique(s: Text, t: Text, x: Text, y: Text)
    requires s != [] && t != [] && TokenText(s) + x == TokenText(t) + y
    ensures TokenSize(s) == TokenSize(t) && s[..TokenSize(s)] == t[..TokenSize(t)] && x == y
  {
    var a, b := TokenText(s), TokenText(t);
    assert a[0] == (a + x)[0] == (b + y)[0] == b[0];
    if StartsWithPair(s) {
      ConcatSplit(a, x, b, y);
    } else {
      UnitUnique(s[0], t[0], x, y);
    }
  }

  lemma {:induction false} EscapeUnique(s: Text, t: Text, x: Text, y: Text)
    requires Escape(s) + ([QUOTE] + x) == Escape(t) + ([QUOTE] + y)
    ensures s == t && x == y
    decreases |s|
  {
    EscapeEnds(s, x);
    EscapeEnds(t, y);
    if s == [] {
      ConcatSplit([QUOTE], x, [QUOTE], y);
    } else {
      EscapeStep(s, x);
      EscapeStep(t, y);
      var m, n := TokenSize(s), TokenSize(t);
      TokenUnique(s, t, Escape(s[m..]) + ([QUOTE] + x), Escape(t[n..]) + ([QUOTE] + y));
      EscapeUnique(s[m..], t[n..], x, y);
      assert s == s[..m] + s[m..] && t == t[..n] + t[n..];
    }
  }

  lemma EscapeStep(s: Text, x: Text)
    requires s != []
    ensures Escape(s) + ([QUOTE] + x) == TokenText(s) + (Escape(s[TokenSize(s)..]) + ([QUOTE] + x))
  {}

  /** Only the empty string's text starts with the closing quote. */
  lemma EscapeEnds(s: Text, x: Text)
    ensures (Escape(s) + ([QUOTE] + x))[0] == QUOTE <==> s == []
    ensures s == [] ==> Escape(s) + ([QUOTE] + x) == [QUOTE] + x
  {
    if s != [] {
      assert TokenText(s)[0] == Escape(s)[0];
    }
  }

  lemma QuoteThen(s: Text, x: Text)
    ensures Quote(s) + x == [QUOTE] + (Escape(s) + ([QUOTE] + x))
  {}

  lemma QuoteUnique(s: Text, t: Text, x: Text, y: Text)
    requires Quote(s) + x == Quote(t) + y
    ensures s == t && x == y
  {
    QuoteThen(s, x);
    QuoteThen(t, y);
    ConcatSplit([QUOTE], Escape(s) + ([QUOTE] + x), [QUOTE], Escape(t) + ([QUOTE] + y));
    EscapeUnique(s, t, x, y);
  }

  /** What may follow a value: the end of the text, a comma or a closing bracket or brace. */
  predicate Ends(x: Text) {
    x == [] || x[0] == COMMA || x[0] == CLOSE_BRACKET || x[0] == CLOSE_BRACE
  }

  lemma NumeralNotShorter(s: Text, t: Text, x: Text, y: Text)
    requires Numeral(s) && Numeral(t) && Ends(x) && s + x == t + y
    ensures |s| >= |t|
  {
    var n := |s|;
    assert n < |s + x| ==> (s + x)[n] == x[0];
    assert n < |t| ==> (t + y)[n] == t[n] && NumeralUnit(t[n]);
  }

  lemma NumeralUnique(s: Text, t: Text, x: Text, y: Text)
    requires Numeral(s) && Numeral(t) && Ends(x) && Ends(y) && s + x == t + y
    ensures s == t && x == y
  {
    NumeralNotShorter(s, t, x, y);
    NumeralNotShorter(t, s, y, x);
    ConcatSplit(s, x, t, y);
  }

  /** The first unit of a text tells what kind of value it is. */
  function Kind(u: CodeUnit): int {
    if u == 110 then 0 else if u == 116 then 1 else if u == 102 then 2 else if u == QUOTE then 4
    else if u == OPEN_BRACKET then 5 else if u == OPEN_BRACE then 6 else if Digit(u) || u == 45 then 3 else 7
  }

  function KindOf(v: Json): int {
    match v
    case Null => 0
    case Bool(b) => if b then 1 else 2
    case Num(_) => 3
    case Str(_) => 4
    case Arr(_) => 5
    case Obj(_) => 6
  }

  lemma {:induction false} FirstUnit(v: Json, x: Text)
    requires WellFormed(v)
    ensures |Canonicalize(v)| > 0 && Kind((Canonicalize(v) + x)[0]) == KindOf(v)
  {}

  function Size(v: Json): nat
    requires Container(v)
  {
    if v.Arr? then |v.items| else |v.members|
  }

  function Child(v: Json, i: nat): Json
    requires Container(v)
    requires i < Size(v)
  {
    if v.Arr? then v.items[i] else v.members[i].value
  }

  /** The piece of one child. */
  function PieceText(v: Json, i: nat): Text
    requires Container(v) && i < Size(v)
  {
    var text := Canonicalize(Child(v, i));
    if v.Arr? then text else EntryText(Entry(v.members[i].key, text))
  }

  /** Every piece comes from one child of the container. */
  lemma {:induction false} PieceSource(v: Json, p: nat) returns (i: nat)
    requires WellFormed(v) && Container(v) && p < |Pieces(v)|
    ensures i < Size(v) && WellFormed(Child(v, i)) && Pieces(v)[p] == PieceText(v, i)
  {
    if v.Arr? {
      i := p;
    } else {
      var s := SortEntries(Entries(v));
      assert s[p] in multiset(Entries(v));
      i :| 0 <= i < |Entries(v)| && Entries(v)[i] == s[p];
    }
  }

  lemma EntryThen(k: Text, s: Text, x: Text)
    ensures EntryText(Entry(k, s)) + x == Quote(k) + ([COLON] + (s + x))
  {
    var q := Quote(k);
    assert q + [COLON] + s + x == q + ([COLON] + (s + x));
  }

  lemma {:induction false} EntryTextUnique(k: Text, s: Text, l: Text, t: Text, x: Text, y: Text)
    requires EntryText(Entry(k, s)) + x == EntryText(Entry(l, t)) + y
    ensures k == l && s + x == t + y
  {
    EntryThen(k, s, x);
    EntryThen(l, t, y);
    QuoteUnique(k, l, [COLON] + (s + x), [COLON] + (t + y));
    ConcatSplit([COLON], s + x, [COLON], t + y);
  }

  lemma {:induction false} ScalarUnique(a: Json, b: Json, x: Text, y: Text)
    requires WellFormed(a) && WellFormed(b) && Ends(x) && Ends(y) && !Container(a)
    requires Canonicalize(a) + x == Canonicalize(b) + y
    ensures a == b && x == y
  {
    FirstUnit(a, x);
    FirstUnit(b, y);
    match a {
      case Null => ConcatSplit(NULL_TEXT, x, NULL_TEXT, y);
      case Bool(v) => ConcatSplit(Canonicalize(a), x, Canonicalize(a), y);
      case Num(s) => NumeralUnique(s, b.numeral, x, y);
      case Str(s) => QuoteUnique(s, b.s, x, y);
    }
  }

  lemma {:induction false} ContainerText(v: Json, x: Text)
    requires Container(v)
    ensures Canonicalize(v) == [Opening(v)] + Join(Pieces(v)) + [Closing(v)]
    ensures Canonicalize(v) + x == [Opening(v)] + (Join(Pieces(v)[0..]) + ([Closing(v)] + x))
  {
    assert Pieces(v)[0..] == Pieces(v);
  }

  /** Canonical texts are self-delimiting. */
  lemma {:induction false} TextUnique(a: Json, b: Json, x: Text, y: Text)
    requires WellFormed(a) && WellFormed(b) && Ends(x) && Ends(y)
    requires Canonicalize(a) + x == Canonicalize(b) + y
    ensures Canonicalize(a) == Canonicalize(b) && x == y
    ensures if Container(a) then KindOf(a) == KindOf(b) && Pieces(a) == Pieces(b) else a == b
    decreases a, 2, 0
  {
    if Container(a) {
      SameKind(a, b, x, y);
      ContainerText(a, x);
      ContainerText(b, y);
      ConcatSplit([Opening(a)], Join(Pieces(a)[0..]) + ([Closing(a)] + x),
                  [Opening(b)], Join(Pieces(b)[0..]) + ([Closing(b)] + y));
      JoinUnique(a, b, 0, x, y);
      assert Pieces(a)[0..] == Pieces(a) && Pieces(b)[0..] == Pieces(b);
    } else {
      ScalarUnique(a, b, x, y);
    }
  }

  lemma {:induction false} SameKind(a: Json, b: Json, x: Text, y: Text)
    requires WellFormed(a) && WellFormed(b) && Canonicalize(a) + x == Canonicalize(b) + y
    ensures KindOf(a) == KindOf(b)
  {
    FirstUnit(a, x);
    FirstUnit(b, y);
  }

  function Opening(v: Json): CodeUnit {
    if v.Arr? then OPEN_BRACKET else OPEN_BRACE
  }

  function Closing(v: Json): CodeUnit {
    if v.Arr? then CLOSE_BRACKET else CLOSE_BRACE
  }

  lemma {:induction false} PieceUnique(a: Json, b: Json, p: nat, x: Text, y: Text)
    requires WellFormed(a) && WellFormed(b) && Container(a) && KindOf(a) == KindOf(b)
    requires p < |Pieces(a)| && p < |Pieces(b)| && Ends(x) && Ends(y)
    requires Pieces(a)[p] + x == Pieces(b)[p] + y
    ensures Pieces(a)[p] == Pieces(b)[p] && x == y
    decreases a, 0, 0
  {
    var i := PieceSource(a, p);
    var j := PieceSource(b, p);
    if a.Obj? {
      EntryTextUnique(a.members[i].key, Canonicalize(Child(a, i)), b.members[j].key, Canonicalize(Child(b, j)), x, y);
    }
    TextUnique(Child(a, i), Child(b, j), x, y);
  }

  /** So are the lists of pieces up to the closing bracket. */
  lemma {:induction false} JoinUnique(a: Json, b: Json, p: nat, x: Text, y: Text)
    requires WellFormed(a) && WellFormed(b) && Container(a) && KindOf(a) == KindOf(b)
    requires p <= |Pieces(a)| && p <= |Pieces(b)|
    requires Join(Pieces(a)[p..]) + ([Closing(a)] + x) == Join(Pieces(b)[p..]) + ([Closing(a)] + y)
    requires p > 0 ==> (p == |Pieces(a)| <==> p == |Pieces(b)|)
    ensures Pieces(a)[p..] == Pieces(b)[p..] && x == y
    decreases a, 1, |Pieces(a)| - p
  {
    JoinStep(a, p, x);
    JoinStep(b, p, y);
    if p == |Pieces(a)| || p == |Pieces(b)| {
      BothEnd(a, b, p, x, y);
      assert Pieces(a)[p..] == [] == Pieces(b)[p..];
    } else {
      PieceUnique(a, b, p, JoinRest(a, p, x), JoinRest(b, p, y));
      RestsAgree(a, b, p, x, y);
      JoinUnique(a, b, p + 1, x, y);
      SameFrom(Pieces(a), Pieces(b), p);
    }
  }

  lemma SameFrom(ps: seq<Text>, qs: seq<Text>, p: nat)
    requires p < |ps| && p < |qs| && ps[p] == qs[p] && ps[p + 1..] == qs[p + 1..]
    ensures ps[p..] == qs[p..]
  {
    assert ps[p..] == [ps[p]] + ps[p + 1..] && qs[p..] == [qs[p]] + qs[p + 1..];
  }

  lemma {:induction false} BothEnd(a: Json, b: Json, p: nat, x: Text, y: Text)
    requires WellFormed(a) && WellFormed(b) && Container(a) && KindOf(a) == KindOf(b)
    requires p <= |Pieces(a)| && p <= |Pieces(b)| && (p == |Pieces(a)| || p == |Pieces(b)|)
    requires (if p < |Pieces(a)| then Pieces(a)[p] + JoinRest(a, p, x) else [Closing(a)] + x)
          == (if p < |Pieces(b)| then Pieces(b)[p] + JoinRest(b, p, y) else [Closing(a)] + y)
    ensures p == |Pieces(a)| == |Pieces(b)| && x == y
  {
    if p < |Pieces(a)| { PieceStart(a, p, JoinRest(a, p, x)); }
    if p < |Pieces(b)| { PieceStart(b, p, JoinRest(b, p, y)); }
    ConcatSplit([Closing(a)], x, [Closing(a)], y);
  }

  /** Where both go on, or both close, what is left of the texts is the same. */
  lemma {:induction false} RestsAgree(a: Json, b: Json, p: nat, x: Text, y: Text)
    requires Container(a) && KindOf(a) == KindOf(b) && p < |Pieces(a)| && p < |Pieces(b)|
    requires JoinRest(a, p, x) == JoinRest(b, p, y)
    ensures p + 1 == |Pieces(a)| <==> p + 1 == |Pieces(b)|
    ensures Join(Pieces(a)[p + 1..]) + ([Closing(a)] + x) == Join(Pieces(b)[p + 1..]) + ([Closing(a)] + y)
  {
    assert JoinRest(a, p, x)[0] == JoinRest(b, p, y)[0];
    if p + 1 < |Pieces(a)| {
      ConcatSplit([COMMA], Join(Pieces(a)[p + 1..]) + ([Closing(a)] + x),
                  [COMMA], Join(Pieces(b)[p + 1..]) + ([Closing(b)] + y));
    } else {
      assert Pieces(a)[p + 1..] == [] == Pieces(b)[p + 1..];
    }
  }

  /** What follows the `p`-th piece. */
  function JoinRest(v: Json, p: nat, x: Text): Text
    requires Container(v) && p < |Pieces(v)|
  {
    if p + 1 < |Pieces(v)| then [COMMA] + (Join(Pieces(v)[p + 1..]) + ([Closing(v)] + x)) else [Closing(v)] + x
  }

  lemma {:induction false} JoinStep(v: Json, p: nat, x: Text)
    requires Container(v) && p <= |Pieces(v)|
    ensures Join(Pieces(v)[p..]) + ([Closing(v)] + x)
         == if p < |Pieces(v)| then Pieces(v)[p] + JoinRest(v, p, x) else [Closing(v)] + x
  {
    JoinFrom(Pieces(v), p, [Closing(v)] + x);
  }

  lemma {:induction false} JoinFrom(ps: seq<Text>, p: nat, x: Text)
    requires p <= |ps|
    ensures Join(ps[p..]) + x
         == if p == |ps| then x
            else if p + 1 == |ps| then ps[p] + x
            else ps[p] + ([COMMA] + (Join(ps[p + 1..]) + x))
  {
    if p + 1 < |ps| {
      var rest := Join(ps[p + 1..]);
      assert ps[p..][1..] == ps[p + 1..];
      assert ps[p] + [COMMA] + rest + x == ps[p] + ([COMMA] + (rest + x));
    }
  }

  lemma {:induction false} PieceStart(v: Json, p: nat, x: Text)
    requires WellFormed(v) && Container(v) && p < |Pieces(v)|
    ensures |Pieces(v)[p]| > 0
    ensures (Pieces(v)[p] + x)[0] != CLOSE_BRACKET && (Pieces(v)[p] + x)[0] != CLOSE_BRACE
  {
    var i := PieceSource(v, p);
    FirstUnit(Child(v, i), x);
  }

  /** Equal canonical texts come from values that are equal up to key order. */
  lemma {:induction false} EqualTextsSameValue(a: Json, b: Json)
    requires WellFormed(a) && WellFormed(b) && Canonicalize(a) == Canonicalize(b)
    ensures SameValue(a, b)
    decreases a, 1
  {
    TextUnique(a, b, [], []);
    if a.Arr? {
      EqualPiecesSameItems(a, b);
    } else if a.Obj? {
      EqualPiecesEqualEntries(a, b);
      EqualEntriesSameMembers(a, b);
    }
  }

  lemma {:induction false} EqualPiecesSameItems(a: Json, b: Json)
    requires WellFormed(a) && WellFormed(b) && a.Arr? && b.Arr? && Pieces(a) == Pieces(b)
    ensures SameValue(a, b)
    decreases a, 0
  {
    assert |a.items| == |Pieces(a)| == |Pieces(b)| == |b.items|;
    forall i | 0 <= i < |a.items| ensures SameValue(a.items[i], b.items[i]) {
      assert Pieces(a)[i] == Pieces(b)[i];
      EqualTextsSameValue(a.items[i], b.items[i]);
    }
  }

  lemma {:induction false} EqualEntriesSameMembers(a: Json, b: Json)
    requires WellFormed(a) && WellFormed(b) && a.Obj? && b.Obj?
    requires multiset(Entries(a)) == multiset(Entries(b)) && |Entries(a)| == |Entries(b)|
    ensures SameValue(a, b)
    decreases a, 0
  {
    assert |a.members| == |Entries(a)| == |Entries(b)| == |b.members|;
    forall i | 0 <= i < |a.members| ensures SameMember(a.members[i], b.members) {
      var j := MatchingMember(a, b, i);
      EqualTextsSameValue(a.members[i].value, b.members[j].value);
    }
  }

  lemma {:induction false} MatchingMember(a: Json, b: Json, i: nat) returns (j: nat)
    requires a.Obj? && b.Obj? && multiset(Entries(a)) == multiset(Entries(b)) && i < |a.members|
    ensures j < |b.members| && a.members[i].key == b.members[j].key
    ensures Canonicalize(a.members[i].value) == Canonicalize(b.members[j].value)
  {
    assert Entries(a)[i] in multiset(Entries(b));
    j :| 0 <= j < |Entries(b)| && Entries(b)[j] == Entries(a)[i];
  }

  lemma {:induction false} EqualPiecesEqualEntries(a: Json, b: Json)
    requires a.Obj? && b.Obj? && Pieces(a) == Pieces(b)
    ensures multiset(Entries(a)) == multiset(Entries(b)) && |Entries(a)| == |Entries(b)|
  {
    var s, t := SortEntries(Entries(a)), SortEntries(Entries(b));
    assert |s| == |Pieces(a)| == |Pieces(b)| == |t|;
    assert |s| == |multiset(s)| == |Entries(a)| && |t| == |multiset(t)| == |Entries(b)|;
    forall p | 0 <= p < |s| ensures s[p] == t[p] {
      assert EntryText(s[p]) == Pieces(a)[p] == Pieces(b)[p] == EntryText(t[p]);
      EntryTextUnique(s[p].key, s[p].text, t[p].key, t[p].text, [], []);
      assert s[p].text + [] == s[p].text && t[p].text + [] == t[p].text;
    }
    assert s == t;
  }

  /** Values that are equal up to key order have the same canonical text. */
  lemma {:induction false} SameValueEqualTexts(a: Json, b: Json)
    requires WellFormed(a) && WellFormed(b) && SameValue(a, b)
    ensures Canonicalize(a) == Canonicalize(b)
    decreases a, 1
  {
    if a.Arr? {
      forall i | 0 <= i < |a.items| ensures Canonicalize(a.items[i]) == Canonicalize(b.items[i]) {
        SameValueEqualTexts(a.items[i], b.items[i]);
      }
      assert Pieces(a) == Pieces(b);
    } else if a.Obj? {
      SameMembersEqualEntries(a, b);
      DistinctInclusion(Entries(a), Entries(b));
      SortSorts(Entries(a));
      SortSorts(Entries(b));
      SortedIsUnique(SortEntries(Entries(a)), SortEntries(Entries(b)));
    }
  }

  lemma {:induction false} SameMembersEqualEntries(a: Json, b: Json)
    requires WellFormed(a) && WellFormed(b) && a.Obj? && b.Obj? && SameValue(a, b)
    ensures forall i | 0 <= i < |Entries(a)| :: Entries(a)[i] in Entries(b)
    decreases a, 0
  {
    var ms, ns := a.members, b.members;
    forall i | 0 <= i < |ms| ensures Entries(a)[i] in Entries(b) {
      assert SameMember(ms[i], ns);
      var j :| 0 <= j < |ns| && ms[i].key == ns[j].key && SameValue(ms[i].value, ns[j].value);
      SameValueEqualTexts(ms[i].value, ns[j].value);
      assert Entries(b)[j] == Entries(a)[i];
    }
  }

  /** Entries with distinct keys that all occur in an equally long list are a permutation of it. */
  lemma {:induction false} DistinctInclusion(s: seq<Entry>, t: seq<Entry>)
    requires DistinctKeys(s) && |s| == |t| && forall i | 0 <= i < |s| :: s[i] in t
    ensures multiset(s) == multiset(t)
  {
    if s != [] {
      var j :| 0 <= j < |t| && t[j] == s[0];
      var rest := t[..j] + t[j + 1..];
      WithoutOne(t, j);
      WithoutHead(s);
      forall i | 0 <= i < |s[1..]| ensures s[1..][i] in rest {
        assert s[i + 1].key != s[0].key;
        StillThere(t, j, s[i + 1]);
      }
      DistinctInclusion(s[1..], rest);
    }
  }

  lemma WithoutOne(t: seq<Entry>, j: nat)
    requires j < |t|
    ensures multiset(t) == multiset(t[..j] + t[j + 1..]) + multiset{t[j]}
  {
    assert t == t[..j] + [t[j]] + t[j + 1..];
  }

  lemma StillThere(t: seq<Entry>, j: nat, e: Entry)
    requires j < |t| && e in t && e != t[j]
    ensures e in t[..j] + t[j + 1..]
  {
    var k :| 0 <= k < |t| && t[k] == e;
    var rest := t[..j] + t[j + 1..];
    assert rest[if k < j then k else k - 1] == e;
  }

  /** The text is the same exactly when the values are equal with the order of keys ignored. */
  lemma CanonicalTextDecidesSameValue(a: Json, b: Json)
    requires WellFormed(a) && WellFormed(b)
    ensures Canonicalize(a) == Canonicalize(b) <==> SameValue(a, b)
  {
    if SameValue(a, b) {
      SameValueEqualTexts(a, b);
    } else if Canonicalize(a) == Canonicalize(b) {
      EqualTextsSameValue(a, b);
    }
  }

  /** For instance, an object with two members is printed with the lesser key first, however it is given. */
  lemma {:induction false} TwoMembers(v: Json, m: Member, n: Member)
    requires Less(m.key, n.key) && (v == Obj([m, n]) || v == Obj([n, m]))
    ensures |Pieces(v)| == 2
    ensures Pieces(v)[0] == EntryText(Entry(m.key, Canonicalize(m.value)))
    ensures Pieces(v)[1] == EntryText(Entry(n.key, Canonicalize(n.value)))
  {
    var a, b := Entry(m.key, Canonicalize(m.value)), Entry(n.key, Canonicalize(n.value));
    TwoEntries(v, m, n);
    TwoSorted(a, b);
    PiecesOfSorted(v, [a, b]);
  }

  lemma {:induction false} TwoEntries(v: Json, m: Member, n: Member)
    requires v == Obj([m, n]) || v == Obj([n, m])
    ensures var a, b := Entry(m.key, Canonicalize(m.value)), Entry(n.key, Canonicalize(n.value));
            Entries(v) == [a, b] || Entries(v) == [b, a]
  {}

  lemma {:induction false} PiecesOfSorted(v: Json, s: seq<Entry>)
    requires v.Obj? && SortEntries(Entries(v)) == s
    ensures |Pieces(v)| == |s| && forall p | 0 <= p < |s| :: Pieces(v)[p] == EntryText(s[p])
  {}

  lemma {:induction false} TwoSorted(a: Entry, b: Entry)
    requires Less(a.key, b.key)
    ensures SortEntries([b, a]) == [a, b] == SortEntries([a, b])
  {
    LessTotal(a.key, b.key);
    assert [b, a][1..] == [a] && [a, b][1..] == [b] && [a][1..] == [] == [b][1..];
    assert SortEntries([a]) == [a] && SortEntries([b]) == [b];
  }
}
