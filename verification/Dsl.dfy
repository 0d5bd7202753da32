/** The pattern language: legs separated by arrows, each with an optional repeat count. */
module Dsl {
  import opened Wrappers
  import opened Strings

  /** A leg of type `edgeType`, outgoing and without constraint like all the parser makes. */
  datatype Leg = Leg(edgeType: string)

  datatype DslResult = Pattern(legs: seq<Leg>) | Error

  const USIZE: nat := 0x1_0000_0000_0000_0000

  // ---- Splitting at "->" ----

  predicate ArrowFirst(s: string) {
    |s| >= 2 && s[0] == '-' && s[1] == '>'
  }

  /** The pieces between arrows, leftmost arrow first; never empty. */
  function Split(s: string): (r: seq<string>)
    ensures r != []
  {
    if s == "" then [""]
    else if ArrowFirst(s) then [""] + Split(s[2..])
    else
      var r := Split(s[1..]);
      [[s[0]] + r[0]] + r[1..]
  }

  predicate HasArrow(s: string) {
    s != "" && (ArrowFirst(s) || HasArrow(s[1..]))
  }

  // ---- Numbers ----

  predicate IsDigit(c: char) {
    '0' <= c <= '9'
  }

  function DigitValue(c: char): nat
    requires IsDigit(c)
  {
    (c as int) - ('0' as int)
  }

  predicate AllDigits(s: string) {
    forall i :: 0 <= i < |s| ==> IsDigit(s[i])
  }

  function DecimalValue(s: string): nat
    requires AllDigits(s)
  {
    if s == "" then 0 else DecimalValue(s[..|s| - 1]) * 10 + DigitValue(s[|s| - 1])
  }

  /** `parse::<usize>()`: an optional plus sign, at least one digit, and no overflow. */
  function ParseUsize(s: string): Option<nat> {
    var digits := if s != "" && s[0] == '+' then s[1..] else s;
    if digits == "" || !AllDigits(digits) || DecimalValue(digits) >= USIZE then None else Some(DecimalValue(digits))
  }

  function Digits(n: nat): string {
    if n < 10 then [n as char + '0'] else Digits(n / 10) + [(n % 10) as char + '0']
  }

  // ---- Legs ----

  /** Where the first star stands, or the length when there is none. */
  function StarIndex(s: string): (i: nat)
    ensures i <= |s|
    ensures i < |s| ==> s[i] == '*'
    ensures forall j :: 0 <= j < i ==> s[j] != '*'
  {
    if s == "" then 0 else if s[0] == '*' then 0 else 1 + StarIndex(s[1..])
  }

  function Repeat(edgeType: string, n: nat): (r: seq<Leg>)
    ensures |r| == n
  {
    seq(n, _ => Leg(edgeType))
  }

  /** The legs of one trimmed, non-empty token; an unreadable count means one. */
  function TokenLegs(token: string): seq<Leg> {
    var i := StarIndex(token);
    if i == |token| then Repeat(token, 1)
    else
      var times := ParseUsize(Trim(token[i + 1..]));
      Repeat(Trim(token[..i]), if times.Some? then times.value else 1)
  }

  /** A blank piece contributes nothing. */
  function PieceLegs(piece: string): seq<Leg> {
    if Trim(piece) == "" then [] else TokenLegs(Trim(piece))
  }

  function AllLegs(pieces: seq<string>): seq<Leg> {
    if pieces == [] then [] else AllLegs(pieces[..|pieces| - 1]) + PieceLegs(pieces[|pieces| - 1])
  }

  function Legs(segment: string): seq<Leg> {
    AllLegs(Split(segment))
  }

  lemma AllLegsStep(pieces: seq<string>, k: nat)
    requires k < |pieces|
    ensures AllLegs(pieces[..k + 1]) == AllLegs(pieces[..k]) + PieceLegs(pieces[k])
  {
    assert pieces[..k + 1][..k] == pieces[..k];
  }

  /** The inner loop: push the same leg `count` times. */
  method PushLegs(legs: seq<Leg>, edgeType: string, count: nat) returns (r: seq<Leg>)
    ensures r == legs + Repeat(edgeType, count)
  {
    r := legs;
    for n := 0 to count
      invariant r == legs + Repeat(edgeType, n)
    {
      assert Repeat(edgeType, n) + [Leg(edgeType)] == Repeat(edgeType, n + 1);
      Assoc(legs, Repeat(edgeType, n), [Leg(edgeType)]);
      r := r + [Leg(edgeType)];
    }
  }

  /** One token: its name and count, and then the pushes. */
  method ParseToken(legs: seq<Leg>, trimmed: string) returns (r: seq<Leg>)
    ensures r == legs + TokenLegs(trimmed)
  {
    var i := StarIndex(trimmed);
    if i == |trimmed| {
      r := PushLegs(legs, trimmed, 1);
    } else {
      var times := ParseUsize(Trim(trimmed[i + 1..]));
      r := PushLegs(legs, Trim(trimmed[..i]), if times.Some? then times.value else 1);
    }
  }

  method ParseRepetitivePattern(segment: string) returns (legs: seq<Leg>)
    ensures legs == Legs(segment)
  {
    legs := [];
    var pieces := Split(segment);
    for k := 0 to |pieces|
      invariant legs == AllLegs(pieces[..k])
    {
      AllLegsStep(pieces, k);
      var trimmed := Trim(pieces[k]);
      if trimmed != "" {
        legs := ParseToken(legs, trimmed);
      }
    }
    assert pieces[..|pieces|] == pieces;
  }

  method ParseDsl(input: string) returns (r: DslResult)
    ensures r == Parsed(input)
  {
    var trimmed := Trim(input);
    if trimmed == "" {
      return Error;
    }
    if HasArrow(trimmed) || '*' in trimmed {
      var legs := ParseRepetitivePattern(trimmed);
      return Pattern(legs);
    }
    r := Error;
  }

  function Parsed(input: string): DslResult {
    var trimmed := Trim(input);
    if trimmed != "" && (HasArrow(trimmed) || '*' in trimmed) then Pattern(Legs(trimmed)) else Error
  }

  // ---- The arrow law ----

  lemma {:induction false} SplitArrow(s: string, t: string)
    ensures Split(s + "->" + t) == Split(s) + Split(t)
  {
    var all := s + "->" + t;
    if s == "" {
      assert all == "->" + t && all[2..] == t;
    } else if ArrowFirst(s) {
      assert ArrowFirst(all) && all[2..] == s[2..] + "->" + t;
      SplitArrow(s[2..], t);
      Assoc([""], Split(s[2..]), Split(t));
    } else {
      assert all[0] == s[0] && all[1..] == s[1..] + "->" + t;
      if |s| == 1 { assert all[1] == '-'; } else { assert all[1] == s[1]; }
      SplitArrow(s[1..], t);
      var r := Split(s[1..]);
      assert (r + Split(t))[0] == r[0] && (r + Split(t))[1..] == r[1..] + Split(t);
      Assoc([[s[0]] + r[0]], r[1..], Split(t));
    }
  }

  lemma {:induction false} AllLegsConcat(a: seq<string>, b: seq<string>)
    ensures AllLegs(a + b) == AllLegs(a) + AllLegs(b)
    decreases |b|
  {
    if b == [] {
      assert a + [] == a;
      assert AllLegs(a) + [] == AllLegs(a);
    } else {
      var init := b[..|b| - 1];
      assert (a + b)[..|a + b| - 1] == a + init;
      AllLegsConcat(a, init);
      Assoc(AllLegs(a), AllLegs(init), PieceLegs(b[|b| - 1]));
    }
  }

  /** For all strings: the legs of s->t are the legs of s followed by the legs of t. */
  lemma ArrowLaw(s: string, t: string)
    ensures Legs(s + "->" + t) == Legs(s) + Legs(t)
  {
    SplitArrow(s, t);
    AllLegsConcat(Split(s), Split(t));
  }

  // ---- Trimming the input changes nothing ----

  lemma AllLegsFirst(piece: string, rest: seq<string>)
    ensures AllLegs([piece] + rest) == PieceLegs(piece) + AllLegs(rest)
  {
    AllLegsConcat([piece], rest);
    assert AllLegs([piece]) == AllLegs([]) + PieceLegs(piece);
    assert [] + PieceLegs(piece) == PieceLegs(piece);
  }

  lemma SpaceInFront(s: string)
    requires s != "" && IsWhitespace(s[0])
    ensures Legs(s) == Legs(s[1..]) && |Split(s)| == |Split(s[1..])|
  {
    var r := Split(s[1..]);
    TrimCons(s[0], r[0]);
    AllLegsFirst([s[0]] + r[0], r[1..]);
    AllLegsFirst(r[0], r[1..]);
    assert r == [r[0]] + r[1..];
  }

  /** The last piece with c appended. */
  function ExtendLast(r: seq<string>, c: char): seq<string>
    requires r != []
  {
    r[..|r| - 1] + [r[|r| - 1] + [c]]
  }

  lemma ExtendLastCons(piece: string, r: seq<string>, c: char)
    requires r != []
    ensures [piece] + ExtendLast(r, c) == ExtendLast([piece] + r, c)
  {
    assert ([piece] + r)[..|r|] == [piece] + r[..|r| - 1];
  }

  lemma ExtendLastHead(a: char, r: seq<string>, c: char)
    requires r != []
    ensures var e := ExtendLast(r, c); [[a] + e[0]] + e[1..] == ExtendLast([[a] + r[0]] + r[1..], c)
  {
    var e, whole := ExtendLast(r, c), [[a] + r[0]] + r[1..];
    if |r| == 1 {
      assert [a] + (r[0] + [c]) == [a] + r[0] + [c];
    } else {
      ExtendLastCons([a] + r[0], r[1..], c);
      assert e[0] == r[0] && e[1..] == ExtendLast(r[1..], c);
    }
  }

  lemma {:induction false} SplitSnoc(s: string, c: char)
    requires IsWhitespace(c)
    ensures Split(s + [c]) == ExtendLast(Split(s), c)
  {
    if s == "" {
      assert s + [c] == [c] && [c][1..] == "" && "" + [c] == [c] + "";
    } else if ArrowFirst(s) {
      assert (s + [c])[2..] == s[2..] + [c];
      SplitSnoc(s[2..], c);
      ExtendLastCons("", Split(s[2..]), c);
    } else {
      assert (s + [c])[1..] == s[1..] + [c];
      SplitSnoc(s[1..], c);
      ExtendLastHead(s[0], Split(s[1..]), c);
    }
  }

  lemma ExtendLastLegs(r: seq<string>, c: char)
    requires r != [] && IsWhitespace(c)
    ensures AllLegs(ExtendLast(r, c)) == AllLegs(r)
  {
    var e, n := ExtendLast(r, c), |r| - 1;
    assert e[..n] == r[..n] && e[n] == r[n] + [c];
    TrimSnoc(r[n], c);
  }

  lemma SpaceBehind(s: string)
    requires s != "" && IsWhitespace(s[|s| - 1])
    ensures Legs(s) == Legs(s[..|s| - 1]) && |Split(s)| == |Split(s[..|s| - 1])|
  {
    var front, c := s[..|s| - 1], s[|s| - 1];
    assert s == front + [c];
    SplitSnoc(front, c);
    ExtendLastLegs(Split(front), c);
  }

  lemma {:induction false} TrimStartLegs(s: string)
    ensures Legs(TrimStart(s)) == Legs(s) && |Split(TrimStart(s))| == |Split(s)|
  {
    if s != "" && IsWhitespace(s[0]) {
      TrimStartLegs(s[1..]);
      SpaceInFront(s);
    }
  }

  lemma {:induction false} TrimEndLegs(s: string)
    ensures Legs(TrimEnd(s)) == Legs(s) && |Split(TrimEnd(s))| == |Split(s)|
  {
    if s != "" && IsWhitespace(s[|s| - 1]) {
      TrimEndLegs(s[..|s| - 1]);
      SpaceBehind(s);
    }
  }

  lemma {:induction false} HasArrowExact(s: string)
    ensures HasArrow(s) <==> |Split(s)| > 1
  {
    if s != "" && !ArrowFirst(s) {
      HasArrowExact(s[1..]);
    }
  }

  /** The whole parser on s->t, for all strings s and t. */
  lemma ParsedArrow(s: string, t: string)
    ensures Parsed(s + "->" + t) == Pattern(Legs(s) + Legs(t))
  {
    var all := s + "->" + t;
    ArrowLaw(s, t);
    SplitArrow(s, t);
    TrimStartLegs(all);
    TrimEndLegs(TrimStart(all));
    HasArrowExact(Trim(all));
  }

  // ---- The repeat law ----

  lemma {:induction false} NoArrowOnePiece(s: string)
    requires !HasArrow(s)
    ensures Split(s) == [s]
  {
    if s != "" {
      NoArrowOnePiece(s[1..]);
      assert s == [s[0]] + s[1..];
    }
  }

  lemma {:induction false} StarBreaksArrows(a: string, b: string)
    requires !HasArrow(a) && !HasArrow(b)
    ensures !HasArrow(a + "*" + b)
  {
    var s := a + "*" + b;
    if a == "" {
      assert s[0] == '*' && s[1..] == b;
    } else {
      assert s[0] == a[0] && s[1..] == a[1..] + "*" + b;
      if |a| == 1 { assert s[1] == '*'; } else { assert s[1] == a[1]; }
      StarBreaksArrows(a[1..], b);
    }
  }

  lemma {:induction false} TrimStartNoStar(a: string)
    requires '*' !in a
    ensures '*' !in TrimStart(a)
  {
    if a != "" && IsWhitespace(a[0]) {
      TrimStartNoStar(a[1..]);
    }
  }

  lemma LegsOfOne(s: string)
    requires !HasArrow(s)
    ensures Legs(s) == PieceLegs(s)
  {
    NoArrowOnePiece(s);
    AllLegsFirst(s, []);
    assert [s] + [] == [s] && PieceLegs(s) + [] == PieceLegs(s);
  }

  /** What T*w means, readable count or not: a count that does not parse as a usize means one. */
  lemma StarLegs(name: string, w: string)
    requires '*' !in name && !HasArrow(name) && !HasArrow(w)
    ensures var times := ParseUsize(Trim(w));
            Legs(name + "*" + w) == Repeat(Trim(name), if times.Some? then times.value else 1)
  {
    StarBreaksArrows(name, w);
    LegsOfOne(name + "*" + w);
    TrimAround(name, '*', w);
    TrimStartNoStar(name);
    var token := TrimStart(name) + "*" + TrimEnd(w);
    var i := |TrimStart(name)|;
    assert token[i] == '*' && token[..i] == TrimStart(name) && token[i + 1..] == TrimEnd(w);
    forall j | 0 <= j < i ensures token[j] != '*' {
      assert token[j] == TrimStart(name)[j];
    }
    assert StarIndex(token) == i;
    TrimOfTrimStart(name);
    TrimOfTrimEnd(w);
  }

  lemma NameLegs(name: string)
    requires '*' !in name && !HasArrow(name) && !IsBlank(name)
    ensures Legs(name) == Repeat(Trim(name), 1)
  {
    LegsOfOne(name);
    TrimStartNoStar(name);
    TrimEndNoStar(TrimStart(name));
    assert StarIndex(Trim(name)) == |Trim(name)|;
  }

  lemma {:induction false} TrimEndNoStar(a: string)
    requires '*' !in a
    ensures '*' !in TrimEnd(a)
  {
    if a != "" && IsWhitespace(a[|a| - 1]) {
      TrimEndNoStar(a[..|a| - 1]);
    }
  }

  /** Printing a number and reading it back. */
  lemma {:induction false} DigitsRead(n: nat)
    ensures Digits(n) != "" && AllDigits(Digits(n)) && DecimalValue(Digits(n)) == n
  {
    if n >= 10 {
      DigitsRead(n / 10);
      var d := Digits(n / 10);
      assert Digits(n)[..|d|] == d;
    } else {
      assert Digits(n)[..0] == "";
    }
  }

  lemma DigitsTrimmed(s: string)
    requires AllDigits(s) && s != ""
    ensures Trim(s) == s
  {
    assert IsDigit(s[0]) && IsDigit(s[|s| - 1]);
  }

  lemma ParseDigits(n: nat)
    ensures Trim(Digits(n)) == Digits(n) && !HasArrow(Digits(n))
    ensures ParseUsize(Digits(n)) == if n < USIZE then Some(n) else None
  {
    var s := Digits(n);
    DigitsRead(n);
    NoArrowInDigits(s);
    DigitsTrimmed(s);
    assert IsDigit(s[0]);
  }

  lemma {:induction false} NoArrowInDigits(s: string)
    requires AllDigits(s)
    ensures !HasArrow(s)
  {
    if s != "" {
      NoArrowInDigits(s[1..]);
    }
  }

  /** n copies of a name, joined by arrows. */
  function Join(name: string, n: nat): string
    requires n >= 1
  {
    if n == 1 then name else Join(name, n - 1) + "->" + name
  }

  lemma {:induction false} JoinLegs(name: string, n: nat)
    requires '*' !in name && !HasArrow(name) && !IsBlank(name) && n >= 1
    ensures Legs(Join(name, n)) == Repeat(Trim(name), n)
  {
    NameLegs(name);
    if n > 1 {
      JoinLegs(name, n - 1);
      ArrowLaw(Join(name, n - 1), name);
      assert Repeat(Trim(name), n - 1) + Repeat(Trim(name), 1) == Repeat(Trim(name), n);
    }
  }

  /**
   * For every T that is non-blank and free of stars and arrows, T*n and n copies of T joined by
   * arrows parse to the same legs exactly when n fits a usize; a larger count is read as one.
   */
  lemma RepeatLaw(name: string, n: nat)
    requires '*' !in name && !HasArrow(name) && !IsBlank(name) && n >= 1
    ensures Legs(name + "*" + Digits(n)) == Legs(Join(name, n)) <==> n < USIZE
  {
    ParseDigits(n);
    StarLegs(name, Digits(n));
    JoinLegs(name, n);
    assert |Repeat(Trim(name), n)| == n && |Repeat(Trim(name), 1)| == 1;
  }

  /** The two spellings are also the same to the whole parser, unless there is just one copy. */
  lemma RepeatParsed(name: string, n: nat)
    requires '*' !in name && !HasArrow(name) && !IsBlank(name) && 1 <= n < USIZE
    ensures Parsed(name + "*" + Digits(n)) == Pattern(Repeat(Trim(name), n))
    ensures Parsed(Join(name, n)) == if n == 1 then Error else Pattern(Repeat(Trim(name), n))
  {
    RepeatLaw(name, n);
    JoinLegs(name, n);
    var star := name + "*" + Digits(n);
    TrimAround(name, '*', Digits(n));
    assert Trim(star)[|TrimStart(name)|] == '*';
    TrimStartLegs(star);
    TrimEndLegs(TrimStart(star));
    if n == 1 {
      NoArrowOnePiece(name);
      TrimStartLegs(name);
      TrimEndLegs(TrimStart(name));
      HasArrowExact(Trim(name));
      TrimStartNoStar(name);
      TrimEndNoStar(TrimStart(name));
    } else {
      ParsedArrow(Join(name, n - 1), name);
      ArrowLaw(Join(name, n - 1), name);
    }
  }

  // ---- What is read and what is not, in terms of the characters ----

  lemma {:induction false} HasArrowAt(s: string)
    ensures HasArrow(s) <==> exists i, j :: 0 <= i < j < |s| && j == i + 1 && s[i] == '-' && s[j] == '>'
  {
    if s != "" {
      var rest := s[1..];
      HasArrowAt(rest);
      if HasArrow(rest) {
        var i, j :| 0 <= i < j < |rest| && j == i + 1 && rest[i] == '-' && rest[j] == '>';
        assert s[i + 1] == '-' && s[j + 1] == '>';
      }
      forall i, j | 0 <= i < j < |s| && j == i + 1 && s[i] == '-' && s[j] == '>' ensures HasArrow(s) {
        if i > 0 {
          assert rest[i - 1] == '-' && rest[j - 1] == '>';
        }
      }
    }
  }

  /** No digit at all, or anything but digits behind an optional plus sign, is unreadable. */
  lemma Unreadable(s: string)
    ensures ParseUsize("") == None && ParseUsize("+") == None
    ensures (exists i :: 0 <= i < |s| && !('0' <= s[i] <= '9') && (i > 0 || s[i] != '+')) ==> ParseUsize(s) == None
  {
    if i :| 0 <= i < |s| && !('0' <= s[i] <= '9') && (i > 0 || s[i] != '+') {
      if s[0] == '+' {
        assert s[1..][i - 1] == s[i];
      }
    }
  }

  lemma TenReads()
    ensures ParseUsize("10") == Some(10)
  {
    assert "10"[..1] == "1" && "1"[..0] == "";
  }

  /** Digits read as the number they write, with or without a plus sign and leading zeros, below 2^64. */
  lemma Readable(digits: string)
    requires digits != "" && forall i :: 0 <= i < |digits| ==> '0' <= digits[i] <= '9'
    ensures AllDigits(digits) && AllDigits("0" + digits)
    ensures ParseUsize(digits) == ParseUsize("+" + digits)
    ensures ParseUsize(digits) ==
            if DecimalValue(digits) < 0x1_0000_0000_0000_0000 then Some(DecimalValue(digits)) else None
    ensures DecimalValue("0" + digits) == DecimalValue(digits)
  {
    assert ("+" + digits)[1..] == digits;
    assert IsDigit(digits[0]);
    LeadingZero(digits);
  }

  lemma {:induction false} LeadingZero(digits: string)
    requires AllDigits(digits)
    ensures AllDigits("0" + digits) && DecimalValue("0" + digits) == DecimalValue(digits)
  {
    var s := "0" + digits;
    if digits == "" {
      assert s[..0] == "";
    } else {
      assert s[..|s| - 1] == "0" + digits[..|digits| - 1];
      LeadingZero(digits[..|digits| - 1]);
    }
  }

  lemma RepeatExact(edgeType: string, n: nat)
    ensures |Repeat(edgeType, n)| == n && forall i :: 0 <= i < n ==> Repeat(edgeType, n)[i] == Leg(edgeType)
    ensures Repeat(edgeType, 1) == [Leg(edgeType)]
  {
  }

  /** T* and T*w with an unreadable w are T once. */
  lemma StarAlone(name: string, w: string)
    requires '*' !in name && !HasArrow(name) && !HasArrow(w)
    requires || Trim(w) == ""
             || Trim(w) == "+"
             || exists i :: 0 <= i < |Trim(w)| && !('0' <= Trim(w)[i] <= '9') && (i > 0 || Trim(w)[i] != '+')
    ensures Legs(name + "*" + w) == [Leg(Trim(name))]
  {
    StarLegs(name, w);
    Unreadable(Trim(w));
    RepeatExact(Trim(name), 1);
  }

  lemma {:induction false} NoArrowInSpace(s: string)
    requires AllWhitespace(s)
    ensures !HasArrow(s)
  {
    if s != "" {
      assert s[0] != '-';
      NoArrowInSpace(s[1..]);
    }
  }

  /** Between arrows: nothing, one plain leg, or (StarLegs) a repeated one. */
  lemma PieceExact(s: string)
    requires !HasArrow(s)
    ensures IsBlank(s) ==> Legs(s) == []
    ensures !IsBlank(s) && '*' !in s ==> Legs(s) == [Leg(Trim(s))]
  {
    LegsOfOne(s);
    if !IsBlank(s) && '*' !in s {
      NameLegs(s);
      RepeatExact(Trim(s), 1);
    }
  }

  lemma StarKept(s: string)
    ensures '*' in Trim(s) <==> '*' in s
  {
    var i, j := TrimExact(s);
    assert s == s[..i] + s[i..j] + s[j..];
    assert '*' !in s[..i] && '*' !in s[j..];
  }

  /** Input without an arrow and without a star is an error; any other is the pattern of its legs. */
  lemma ParsedExact(s: string)
    ensures Parsed(s) == if HasArrow(s) || '*' in s then Pattern(Legs(s)) else Error
  {
    TrimStartLegs(s);
    TrimEndLegs(TrimStart(s));
    HasArrowExact(s);
    HasArrowExact(Trim(s));
    StarKept(s);
  }

  // ---- Writing a pattern and reading it back ----

  predicate PlainName(name: string) {
    '*' !in name && !HasArrow(name) && Trim(name) == name && name != ""
  }

  function Render(legs: seq<Leg>): string
    requires legs != []
  {
    if |legs| == 1 then legs[0].edgeType else Render(legs[..|legs| - 1]) + "->" + legs[|legs| - 1].edgeType
  }

  lemma {:induction false} RenderLegs(legs: seq<Leg>)
    requires legs != [] && forall i :: 0 <= i < |legs| ==> PlainName(legs[i].edgeType)
    ensures Legs(Render(legs)) == legs
  {
    var n := |legs| - 1;
    NameLegs(legs[n].edgeType);
    assert Repeat(legs[n].edgeType, 1) == [legs[n]];
    assert legs == legs[..n] + [legs[n]];
    if n > 0 {
      RenderLegs(legs[..n]);
      ArrowLaw(Render(legs[..n]), legs[n].edgeType);
    }
  }

  /** Any pattern of two or more plainly named legs survives the round trip. */
  lemma RoundTrip(legs: seq<Leg>)
    requires |legs| >= 2 && forall i :: 0 <= i < |legs| ==> PlainName(legs[i].edgeType)
    ensures Parsed(Render(legs)) == Pattern(legs)
  {
    var front, name := Render(legs[..|legs| - 1]), legs[|legs| - 1].edgeType;
    RenderLegs(legs);
    assert Render(legs) == front + "->" + name;
    ArrowRead(front, name, legs);
  }

  lemma ArrowRead(s: string, t: string, legs: seq<Leg>)
    requires Legs(s + "->" + t) == legs
    ensures Parsed(s + "->" + t) == Pattern(legs)
  {
    ParsedArrow(s, t);
    ArrowLaw(s, t);
  }
}
