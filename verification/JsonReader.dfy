/** A reader of JSON texts after RFC 8259, written without the printer, and the proof that it undoes the printer: the
    canonical text of a value denotes that value. */
module JsonReader {
  import opened Prelude
  import opened CanonicalJson

  /** What was read and the text that follows it. */
  datatype Read<T> = Read(value: T, rest: Text)

  /** White space of section 2. */
  predicate Space(u: CodeUnit) {
    u == 32 || u == 9 || u == 10 || u == 13
  }

  function SkipSpace(t: Text): (r: Text)
    ensures |r| <= |t|
  {
    if t != [] && Space(t[0]) then SkipSpace(t[1..]) else t
  }

  function HexOf(u: CodeUnit): Option<CodeUnit> {
    if 48 <= u <= 57 then Some(u - 48)
    else if 97 <= u <= 102 then Some(u - 87)
    else if 65 <= u <= 70 then Some(u - 55)
    else None
  }

  function HexFour(a: CodeUnit, b: CodeUnit, c: CodeUnit, d: CodeUnit): Option<CodeUnit> {
    if HexOf(a).None? || HexOf(b).None? || HexOf(c).None? || HexOf(d).None? then None
    else Some(4096 * HexOf(a).value + 256 * HexOf(b).value + 16 * HexOf(c).value + HexOf(d).value)
  }

  /** The two-character escapes of section 7: quotation mark, backslash, slash, \b, \f, \n, \r and \t. */
  function Escaped(u: CodeUnit): Option<CodeUnit> {
    if u == 34 || u == 92 || u == 47 then Some(u)
    else if u == 98 then Some(8)
    else if u == 102 then Some(12)
    else if u == 110 then Some(10)
    else if u == 114 then Some(13)
    else if u == 116 then Some(9)
    else None
  }

  function Before(u: CodeUnit, r: Option<Read<Text>>): Option<Read<Text>> {
    if r.None? then None else Some(Read([u] + r.value.value, r.value.rest))
  }

  /** A string after its opening quotation mark, section 7. */
  function ReadChars(t: Text): (r: Option<Read<Text>>)
    ensures r.Some? ==> |r.value.rest| < |t|
  {
    if t == [] then None
    else if t[0] == 34 then Some(Read([], t[1..]))
    else if t[0] == 92 then
      if |t| >= 6 && t[1] == 117 then
        var u := HexFour(t[2], t[3], t[4], t[5]);
        if u.None? then None else Before(u.value, ReadChars(t[6..]))
      else if |t| >= 2 && Escaped(t[1]).Some? then Before(Escaped(t[1]).value, ReadChars(t[2..]))
      else None
    else if t[0] < 32 then None
    else Before(t[0], ReadChars(t[1..]))
  }

  /** How many units from the start on can belong to a number. */
  function NumeralLength(t: Text): (n: nat)
    ensures n <= |t|
  {
    if t == [] || !NumeralUnit(t[0]) then 0 else 1 + NumeralLength(t[1..])
  }

  /** A value, section 3; a number is its text. */
  function ReadValue(t0: Text): (r: Option<Read<Json>>)
    ensures r.Some? ==> |r.value.rest| < |t0|
    decreases |t0|, 0
  {
    var t := SkipSpace(t0);
    if t == [] then None
    else if [110, 117, 108, 108] <= t then Some(Read(Null, t[4..]))
    else if [116, 114, 117, 101] <= t then Some(Read(Bool(true), t[4..]))
    else if [102, 97, 108, 115, 101] <= t then Some(Read(Bool(false), t[5..]))
    else if t[0] == 34 then
      var s := ReadChars(t[1..]);
      if s.None? then None else Some(Read(Str(s.value.value), s.value.rest))
    else if t[0] == 91 then
      var inner := SkipSpace(t[1..]);
      if inner != [] && inner[0] == 93 then Some(Read(Arr([]), inner[1..])) else
      var s := ReadItems(t[1..]);
      if s.None? then None else Some(Read(Arr(s.value.value), s.value.rest))
    else if t[0] == 123 then
      var inner := SkipSpace(t[1..]);
      if inner != [] && inner[0] == 125 then Some(Read(Obj([]), inner[1..])) else
      var s := ReadMembers(t[1..]);
      if s.None? then None else Some(Read(Obj(s.value.value), s.value.rest))
    else
      var n := NumeralLength(t);
      if n > 0 && Numeral(t[..n]) then Some(Read(Num(t[..n]), t[n..])) else None
  }

  /** The values of an array up to its closing bracket, section 5. */
  function ReadItems(t: Text): (r: Option<Read<seq<Json>>>)
    ensures r.Some? ==> |r.value.rest| < |t|
    decreases |t|, 1
  {
    var v := ReadValue(t);
    if v.None? then None else
    var u := SkipSpace(v.value.rest);
    if u != [] && u[0] == 93 then Some(Read([v.value.value], u[1..]))
    else if u != [] && u[0] == 44 then
      var more := ReadItems(u[1..]);
      if more.None? then None else Some(Read([v.value.value] + more.value.value, more.value.rest))
    else None
  }

  /** One member: a string, a colon and a value, section 4. */
  function ReadMember(t0: Text): (r: Option<Read<Member>>)
    ensures r.Some? ==> |r.value.rest| < |t0|
    decreases |t0|, 1
  {
    var t := SkipSpace(t0);
    if t == [] || t[0] != 34 then None else
    var key := ReadChars(t[1..]);
    if key.None? then None else
    var u := SkipSpace(key.value.rest);
    if u == [] || u[0] != 58 then None else
    var v := ReadValue(u[1..]);
    if v.None? then None else Some(Read(Member(key.value.value, v.value.value), v.value.rest))
  }

  /** The members of an object up to its closing brace. */
  function ReadMembers(t: Text): (r: Option<Read<seq<Member>>>)
    ensures r.Some? ==> |r.value.rest| < |t|
    decreases |t|, 2
  {
    var m := ReadMember(t);
    if m.None? then None else
    var u := SkipSpace(m.value.rest);
    if u != [] && u[0] == 125 then Some(Read([m.value.value], u[1..]))
    else if u != [] && u[0] == 44 then
      var more := ReadMembers(u[1..]);
      if more.None? then None else Some(Read([m.value.value] + more.value.value, more.value.rest))
    else None
  }

  // ---- strings ----

  lemma HexBack(u: CodeUnit)
    ensures HexFour(HexDigit(u / 4096), HexDigit(u / 256 % 16), HexDigit(u / 16 % 16), HexDigit(u % 16)) == Some(u)
  {
    HexDigits(u);
  }

  /** A unit printed before a text is read before what is read there. */
  lemma {:induction false} UnitBack(u: CodeUnit, t: Text)
    ensures ReadChars(EscapeUnit(u) + t) == Before(u, ReadChars(t))
  {
    if EscapeUnit(u) == [u] {
      PlainBack(u, t);
    } else if EscapeUnit(u) == UnicodeEscape(u) {
      UnicodeBack(u, t);
    } else {
      ShortBack(EscapeUnit(u)[1], t);
    }
  }

  lemma {:induction false} UnicodeBack(u: CodeUnit, t: Text)
    ensures ReadChars(UnicodeEscape(u) + t) == Before(u, ReadChars(t))
  {
    var all := UnicodeEscape(u) + t;
    assert all[6..] == t;
    HexBack(u);
  }

  lemma {:induction false} ShortBack(c: CodeUnit, t: Text)
    requires Escaped(c).Some?
    ensures ReadChars([BACKSLASH, c] + t) == Before(Escaped(c).value, ReadChars(t))
  {
    assert ([BACKSLASH, c] + t)[2..] == t;
  }

  lemma {:induction false} PlainBack(u: CodeUnit, t: Text)
    requires u >= 32 && u != 34 && u != 92
    ensures ReadChars([u] + t) == Before(u, ReadChars(t))
  {
    assert ([u] + t)[1..] == t;
  }

  lemma {:induction false} PairBack(u: CodeUnit, v: CodeUnit, t: Text)
    requires HighSurrogate(u) && LowSurrogate(v)
    ensures ReadChars([u, v] + t) == Before(u, Before(v, ReadChars(t)))
  {
    assert [u, v] + t == [u] + ([v] + t);
    PlainBack(u, [v] + t);
    PlainBack(v, t);
  }

  function AllBefore(s: Text, r: Option<Read<Text>>): Option<Read<Text>> {
    if r.None? then None else Some(Read(s + r.value.value, r.value.rest))
  }

  lemma {:induction false} TokenBack(s: Text, t: Text)
    requires s != []
    ensures ReadChars(TokenText(s) + t) == AllBefore(s[..TokenSize(s)], ReadChars(t))
  {
    if StartsWithPair(s) {
      PairToken(s, t);
    } else {
      UnitBack(s[0], t);
      assert s[..1] == [s[0]];
    }
  }

  lemma {:induction false} PairToken(s: Text, t: Text)
    requires StartsWithPair(s)
    ensures ReadChars(s[..2] + t) == AllBefore(s[..2], ReadChars(t))
  {
    assert s[..2] == [s[0], s[1]];
    PairBack(s[0], s[1], t);
    if ReadChars(t).Some? {
      var w := ReadChars(t).value.value;
      assert [s[0]] + ([s[1]] + w) == [s[0], s[1]] + w;
    }
  }

  lemma {:induction false} CharsBack(s: Text, x: Text)
    ensures ReadChars(Escape(s) + ([QUOTE] + x)) == Some(Read(s, x))
    decreases |s|
  {
    if s == [] {
      assert Escape(s) + ([QUOTE] + x) == [QUOTE] + x;
    } else {
      var n := TokenSize(s);
      EscapeStep(s, x);
      CharsBack(s[n..], x);
      TokenBack(s, Escape(s[n..]) + ([QUOTE] + x));
      assert s == s[..n] + s[n..];
    }
  }

  lemma {:induction false} QuoteBack(s: Text, x: Text)
    ensures (Quote(s) + x)[0] == QUOTE && ReadChars((Quote(s) + x)[1..]) == Some(Read(s, x))
  {
    QuoteThen(s, x);
    assert ([QUOTE] + (Escape(s) + ([QUOTE] + x)))[1..] == Escape(s) + ([QUOTE] + x);
    CharsBack(s, x);
  }

  // ---- scalars ----

  lemma {:induction false} NumeralEnds(t: Text, x: Text)
    requires (forall i | 0 <= i < |t| :: NumeralUnit(t[i])) && Ends(x)
    ensures NumeralLength(t + x) == |t|
  {
    if t != [] {
      assert (t + x)[1..] == t[1..] + x;
      NumeralEnds(t[1..], x);
    }
  }

  lemma NoSpace(t: Text)
    requires t != [] ==> !Space(t[0])
    ensures SkipSpace(t) == t
  {}

  lemma Headed(c: CodeUnit, x: Text)
    requires !Space(c)
    ensures var t := [c] + x; SkipSpace(t) == t && t[0] == c && t[1..] == x
  {
    assert ([c] + x)[1..] == x;
  }

  lemma {:induction false} ScalarBack(v: Json, x: Text)
    requires WellFormed(v) && !Container(v) && Ends(x)
    ensures ReadValue(Canonicalize(v) + x) == Some(Read(v, x))
  {
    var c := Canonicalize(v);
    var t := c + x;
    FirstUnit(v, x);
    NoSpace(t);
    assert t[|c|..] == x && t[..|c|] == c;
    match v {
      case Null => assert NULL_TEXT <= t;
      case Bool(b) => BoolBack(b, x);
      case Num(n) =>
        NumeralEnds(n, x);
        NumeralFirst(n, x);
      case Str(s) => QuoteBack(s, x); StringFirst(s, x);
    }
  }

  lemma {:induction false} BoolBack(b: bool, x: Text)
    ensures ReadValue(Canonicalize(Bool(b)) + x) == Some(Read(Bool(b), x))
  {
    var c := Canonicalize(Bool(b));
    var t := c + x;
    assert t[0] == c[0];
    NoSpace(t);
    assert c <= t && t[|c|..] == x;
  }

  /** No literal starts like a number. */
  lemma NumeralFirst(n: Text, x: Text)
    requires Numeral(n)
    ensures !(NULL_TEXT <= n + x) && !(TRUE_TEXT <= n + x) && !(FALSE_TEXT <= n + x)
    ensures (n + x)[0] != 34 && (n + x)[0] != 91 && (n + x)[0] != 123
  {
    assert (n + x)[0] == n[0];
  }

  lemma StringFirst(s: Text, x: Text)
    ensures !(NULL_TEXT <= Quote(s) + x) && !(TRUE_TEXT <= Quote(s) + x) && !(FALSE_TEXT <= Quote(s) + x)
  {
    assert (Quote(s) + x)[0] == QUOTE;
  }

  // ---- the spelling ----

  predicate Surrogate(u: CodeUnit) {
    0xD800 <= u < 0xE000
  }

  /** Every surrogate is part of a pair. */
  predicate WellPaired(s: Text) {
    || s == []
    || (StartsWithPair(s) && WellPaired(s[2..]))
    || (!Surrogate(s[0]) && WellPaired(s[1..]))
  }

  /** Reading the first unit of a string uses up at least as much text as printing it. */
  lemma {:induction false} FirstRead(t: Text) returns (more: Text)
    requires ReadChars(t).Some? && ReadChars(t).value.value != []
    ensures var r := ReadChars(t).value;
            && |more| < |t| && ReadChars(more) == Some(Read(r.value[1..], r.rest))
            && (Surrogate(r.value[0]) || |t| - |more| >= |EscapeUnit(r.value[0])|)
  {
    more := if t[0] != 92 then t[1..] else if |t| >= 6 && t[1] == 117 then t[6..] else t[2..];
    var u, r := ReadChars(t).value.value[0], ReadChars(more);
    assert ReadChars(t) == Before(u, r);
    assert ([u] + r.value.value)[1..] == r.value.value;
  }

  /** No other spelling of a string is shorter than the printer's. */
  lemma {:induction false} ShortestSpelling(t: Text, s: Text, x: Text)
    requires ReadChars(t) == Some(Read(s, x)) && WellPaired(s)
    ensures |Escape(s)| + 1 + |x| <= |t|
    decreases |t|
  {
    if s != [] {
      var more := FirstRead(t);
      if StartsWithPair(s) {
        var rest := FirstRead(more);
        assert s[1..][1..] == s[2..];
        ShortestSpelling(rest, s[2..], x);
      } else {
        ShortestSpelling(more, s[1..], x);
      }
    }
  }

  lemma {:induction false} WellPairedAfter(s: Text, t: Text)
    requires (forall i | 0 <= i < |s| :: !Surrogate(s[i])) && WellPaired(t)
    ensures WellPaired(s + t)
  {
    if s == [] {
      assert s + t == t;
    } else {
      WellPairedAfter(s[1..], t);
      assert (s + t)[1..] == s[1..] + t;
    }
  }

  lemma PlainUnits(u: CodeUnit)
    ensures forall i | 0 <= i < |EscapeUnit(u)| :: !Surrogate(EscapeUnit(u)[i])
    ensures |EscapeUnit(u)| == 6 ==> forall i | 2 <= i < 6 :: Digit(EscapeUnit(u)[i]) || 97 <= EscapeUnit(u)[i] <= 102
  {}

  /** A printed string has no surrogate on its own. */
  lemma {:induction false} PrintedIsWellPaired(s: Text)
    ensures WellPaired(Escape(s))
    decreases |s|
  {
    if s != [] {
      var n := TokenSize(s);
      var rest := Escape(s[n..]);
      PrintedIsWellPaired(s[n..]);
      if StartsWithPair(s) {
        assert (s[..2] + rest)[2..] == rest;
      } else {
        PlainUnits(s[0]);
        WellPairedAfter(EscapeUnit(s[0]), rest);
      }
    }
  }

  // ---- the round trip ----

  /** The reader undoes the printer: on the canonical text of a value, before any legal continuation, it reads a value
      that is the same with the order of keys ignored, and stops there. */
  lemma {:induction false} ReaderUndoesPrinter(v: Json, x: Text) returns (w: Json)
    requires WellFormed(v) && Ends(x)
    ensures ReadValue(Canonicalize(v) + x) == Some(Read(w, x)) && SameValue(v, w)
    decreases v, 2
  {
    if v.Arr? {
      w := ArrayBack(v, x);
    } else if v.Obj? {
      w := ObjectBack(v, x);
    } else {
      ScalarBack(v, x);
      w := v;
    }
  }

  /** A container's text: the opening, the pieces, the closing. */
  lemma {:induction false} ContainerStart(v: Json, x: Text)
    requires WellFormed(v) && Container(v)
    ensures var t := Canonicalize(v) + x;
            && t[0] == Opening(v) && t[1..] == Join(Pieces(v)[0..]) + ([Closing(v)] + x)
            && SkipSpace(t) == t
            && !(NULL_TEXT <= t) && !(TRUE_TEXT <= t) && !(FALSE_TEXT <= t)
  {
    ContainerText(v, x);
    var rest := Join(Pieces(v)[0..]) + ([Closing(v)] + x);
    assert ([Opening(v)] + rest)[1..] == rest;
  }

  /** No piece starts with white space or a closing bracket. */
  lemma {:induction false} PieceBegins(v: Json, p: nat, x: Text)
    requires WellFormed(v) && Container(v) && p < |Pieces(v)|
    ensures var t := Pieces(v)[p] + x;
            t != [] && !Space(t[0]) && t[0] != CLOSE_BRACKET && t[0] != CLOSE_BRACE
  {
    PieceStart(v, p, x);
    var i := PieceSource(v, p);
    FirstUnit(Child(v, i), x);
    if v.Obj? { assert Pieces(v)[p][0] == QUOTE; }
  }

  lemma {:induction false} ArrayBack(v: Json, x: Text) returns (w: Json)
    requires WellFormed(v) && v.Arr? && Ends(x)
    ensures ReadValue(Canonicalize(v) + x) == Some(Read(w, x)) && SameValue(v, w)
    decreases v, 1
  {
    var t := Canonicalize(v) + x;
    ContainerStart(v, x);
    JoinStep(v, 0, x);
    if v.items == [] {
      Headed(CLOSE_BRACKET, x);
      w := Arr([]);
    } else {
      PieceBegins(v, 0, JoinRest(v, 0, x));
      NoSpace(t[1..]);
      var ws := ItemsBack(v, 0, x);
      w := Arr(ws);
      assert forall i | 0 <= i < |v.items| :: SameValue(v.items[0 + i], ws[i]);
    }
  }

  /** What follows a piece: a comma and the next pieces, or the closing bracket. */
  lemma {:induction false} RestBegins(v: Json, p: nat, x: Text)
    requires Container(v) && p < |Pieces(v)|
    ensures var r := JoinRest(v, p, x);
            && Ends(r) && r != [] && SkipSpace(r) == r
            && (p + 1 < |Pieces(v)| ==> r[0] == COMMA && r[1..] == Join(Pieces(v)[p + 1..]) + ([Closing(v)] + x))
            && (p + 1 == |Pieces(v)| ==> r[0] == Closing(v) && r[1..] == x)
  {
    var more := Join(Pieces(v)[p + 1..]) + ([Closing(v)] + x);
    Headed(COMMA, more);
    Headed(Closing(v), x);
  }

  lemma {:induction false} ItemsGoOn(t: Text, w: Json, r: Text, more: seq<Json>, x: Text)
    requires ReadValue(t) == Some(Read(w, r)) && r != [] && SkipSpace(r) == r && r[0] == COMMA
    requires ReadItems(r[1..]) == Some(Read(more, x))
    ensures ReadItems(t) == Some(Read([w] + more, x))
  {}

  lemma {:induction false} ItemsEnd(t: Text, w: Json, r: Text, x: Text)
    requires ReadValue(t) == Some(Read(w, r)) && r != [] && SkipSpace(r) == r && r[0] == CLOSE_BRACKET && r[1..] == x
    ensures ReadItems(t) == Some(Read([w], x))
  {}

  /** The values from the `p`-th item on. */
  ghost predicate SameFromItem(v: Json, p: nat, ws: seq<Json>)
    requires v.Arr?
  {
    p + |ws| == |v.items| && forall i | 0 <= i < |ws| :: SameValue(v.items[p + i], ws[i])
  }

  lemma SameFromNext(v: Json, p: nat, w: Json, ws: seq<Json>)
    requires v.Arr? && p < |v.items| && SameValue(v.items[p], w) && SameFromItem(v, p + 1, ws)
    ensures SameFromItem(v, p, [w] + ws)
  {
    forall i | 0 <= i < |[w] + ws| ensures SameValue(v.items[p + i], ([w] + ws)[i]) {
      if i > 0 { assert v.items[p + i] == v.items[p + 1 + (i - 1)] && ([w] + ws)[i] == ws[i - 1]; }
    }
  }

  lemma {:induction false} ItemsBack(v: Json, p: nat, x: Text) returns (ws: seq<Json>)
    requires WellFormed(v) && v.Arr? && p < |Pieces(v)|
    ensures ReadItems(Join(Pieces(v)[p..]) + ([Closing(v)] + x)) == Some(Read(ws, x)) && SameFromItem(v, p, ws)
    decreases v, 0, |Pieces(v)| - p
  {
    var t, r := Join(Pieces(v)[p..]) + ([Closing(v)] + x), JoinRest(v, p, x);
    JoinStep(v, p, x);
    RestBegins(v, p, x);
    var w := ReaderUndoesPrinter(v.items[p], r);
    if p + 1 < |Pieces(v)| {
      var more := ItemsBack(v, p + 1, x);
      ItemsGoOn(t, w, r, more, x);
      SameFromNext(v, p, w, more);
      ws := [w] + more;
    } else {
      ItemsEnd(t, w, r, x);
      ws := [w];
    }
  }

  lemma {:induction false} ObjectBack(v: Json, x: Text) returns (w: Json)
    requires WellFormed(v) && v.Obj? && Ends(x)
    ensures ReadValue(Canonicalize(v) + x) == Some(Read(w, x)) && SameValue(v, w)
    decreases v, 1
  {
    var t := Canonicalize(v) + x;
    ContainerStart(v, x);
    JoinStep(v, 0, x);
    if Pieces(v) == [] {
      Headed(CLOSE_BRACE, x);
      NoPieces(v);
      w := Obj([]);
    } else {
      PieceBegins(v, 0, JoinRest(v, 0, x));
      NoSpace(t[1..]);
      var ms := MembersBack(v, 0, x);
      SortedMembersSame(v, ms);
      ObjectRead(t, ms, x);
      w := Obj(ms);
    }
  }

  lemma {:induction false} ObjectRead(t: Text, ms: seq<Member>, x: Text)
    requires t != [] && SkipSpace(t) == t && t[0] == OPEN_BRACE
    requires !(NULL_TEXT <= t) && !(TRUE_TEXT <= t) && !(FALSE_TEXT <= t)
    requires t[1..] != [] && SkipSpace(t[1..]) == t[1..] && t[1] != CLOSE_BRACE
    requires ReadMembers(t[1..]) == Some(Read(ms, x))
    ensures ReadValue(t) == Some(Read(Obj(ms), x))
  {}

  lemma NoPieces(v: Json)
    requires v.Obj? && Pieces(v) == []
    ensures v.members == []
  {
    assert |multiset(SortEntries(Entries(v)))| == |multiset(Entries(v))|;
  }

  /** A member read for an entry of the object: that of the entry's key, with the same value. */
  ghost predicate Matches(v: Json, e: Entry, m: Member)
    requires v.Obj?
  {
    exists j :: 0 <= j < |v.members| && MatchesMember(v, e, m, j)
  }

  ghost predicate MatchesMember(v: Json, e: Entry, m: Member, j: nat)
    requires v.Obj? && j < |v.members|
  {
    Entries(v)[j] == e && m.key == v.members[j].key && SameValue(v.members[j].value, m.value)
  }

  lemma {:induction false} MembersGoOn(t: Text, m: Member, r: Text, more: seq<Member>, x: Text)
    requires ReadMember(t) == Some(Read(m, r)) && r != [] && SkipSpace(r) == r && r[0] == COMMA
    requires ReadMembers(r[1..]) == Some(Read(more, x))
    ensures ReadMembers(t) == Some(Read([m] + more, x))
  {}

  lemma {:induction false} MembersEnd(t: Text, m: Member, r: Text, x: Text)
    requires ReadMember(t) == Some(Read(m, r)) && r != [] && SkipSpace(r) == r && r[0] == CLOSE_BRACE && r[1..] == x
    ensures ReadMembers(t) == Some(Read([m], x))
  {}

  /** The members for the entries from the `p`-th on. */
  ghost predicate MatchesFrom(v: Json, s: seq<Entry>, p: nat, ms: seq<Member>)
    requires v.Obj?
  {
    p + |ms| == |s| && forall i: nat | i < |ms| :: Matches(v, s[p + i], ms[i])
  }

  lemma MatchesNext(v: Json, s: seq<Entry>, p: nat, m: Member, ms: seq<Member>)
    requires v.Obj? && p < |s| && Matches(v, s[p], m) && MatchesFrom(v, s, p + 1, ms)
    ensures MatchesFrom(v, s, p, [m] + ms)
  {
    forall i: nat | i < |[m] + ms| ensures Matches(v, s[p + i], ([m] + ms)[i]) {
      if i > 0 { MatchesShift(v, s, p, ms, i - 1); }
    }
  }

  lemma MatchesShift(v: Json, s: seq<Entry>, p: nat, ms: seq<Member>, k: nat)
    requires v.Obj? && MatchesFrom(v, s, p + 1, ms) && k < |ms|
    ensures Matches(v, s[p + (k + 1)], ms[k])
  {
    assert s[p + (k + 1)] == s[p + 1 + k];
  }

  function SortedEntries(v: Json): (s: seq<Entry>)
    requires v.Obj?
  {
    SortEntries(Entries(v))
  }

  lemma {:induction false} MembersBack(v: Json, p: nat, x: Text) returns (ms: seq<Member>)
    requires WellFormed(v) && v.Obj? && p < |Pieces(v)|
    ensures ReadMembers(Join(Pieces(v)[p..]) + ([Closing(v)] + x)) == Some(Read(ms, x))
    ensures MatchesFrom(v, SortedEntries(v), p, ms)
    decreases v, 0, |Pieces(v)| - p
  {
    var t, r := Join(Pieces(v)[p..]) + ([Closing(v)] + x), JoinRest(v, p, x);
    JoinStep(v, p, x);
    RestBegins(v, p, x);
    var m := MemberBack(v, p, r);
    if p + 1 < |Pieces(v)| {
      var more := MembersBack(v, p + 1, x);
      MembersGoOn(t, m, r, more, x);
      MatchesNext(v, SortedEntries(v), p, m, more);
      ms := [m] + more;
    } else {
      MembersEnd(t, m, r, x);
      ms := [m];
    }
  }

  lemma {:induction false} MemberBack(v: Json, p: nat, y: Text) returns (m: Member)
    requires WellFormed(v) && v.Obj? && p < |Pieces(v)| && Ends(y)
    ensures |SortedEntries(v)| == |Pieces(v)|
    ensures ReadMember(Pieces(v)[p] + y) == Some(Read(m, y)) && Matches(v, SortedEntries(v)[p], m)
    decreases v, 0, 0
  {
    var s := SortedEntries(v);
    assert s[p] in multiset(Entries(v));
    var j :| 0 <= j < |Entries(v)| && Entries(v)[j] == s[p];
    var w := ReaderUndoesPrinter(v.members[j].value, y);
    m := Member(v.members[j].key, w);
    EntryBack(v.members[j].key, Canonicalize(v.members[j].value), y, w);
    assert MatchesMember(v, s[p], m, j);
  }

  lemma {:induction false} EntryBack(key: Text, text: Text, y: Text, w: Json)
    requires ReadValue(text + y) == Some(Read(w, y))
    ensures ReadMember(EntryText(Entry(key, text)) + y) == Some(Read(Member(key, w), y))
  {
    var t, u := EntryText(Entry(key, text)) + y, [COLON] + (text + y);
    EntryThen(key, text, y);
    QuoteBack(key, u);
    NoSpace(t);
    Headed(COLON, text + y);
  }

  /** Every member of the object is among those read. */
  lemma {:induction false} SortedMembersSame(v: Json, ms: seq<Member>)
    requires WellFormed(v) && v.Obj? && MatchesFrom(v, SortedEntries(v), 0, ms)
    ensures SameValue(v, Obj(ms))
  {
    var s := SortedEntries(v);
    assert |s| == |multiset(s)| == |multiset(Entries(v))| == |v.members|;
    forall i | 0 <= i < |v.members| ensures SameMember(v.members[i], ms) {
      assert Entries(v)[i] in multiset(s);
      var p: nat :| p < |s| && s[p] == Entries(v)[i];
      MemberFound(v, s, ms, i, p);
    }
  }

  lemma {:induction false} MemberFound(v: Json, s: seq<Entry>, ms: seq<Member>, i: nat, p: nat)
    requires WellFormed(v) && v.Obj? && MatchesFrom(v, s, 0, ms) && i < |v.members|
    requires p < |s| && s[p] == Entries(v)[i]
    ensures SameMember(v.members[i], ms)
  {
    assert Matches(v, s[0 + p], ms[p]);
    var j: nat :| j < |v.members| && MatchesMember(v, s[p], ms[p], j);
    assert v.members[i].key == v.members[j].key;
  }
}
