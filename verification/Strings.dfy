/** The text operations the validators and the pattern language rely on. */
module Strings {
  /** The Unicode White_Space property, which text trimming uses. */
  predicate IsWhitespace(c: char) {
    || '\U{0009}' <= c <= '\U{000D}'
    || c == ' '
    || c == '\U{0085}'
    || c == '\U{00A0}'
    || c == '\U{1680}'
    || '\U{2000}' <= c <= '\U{200A}'
    || c == '\U{2028}'
    || c == '\U{2029}'
    || c == '\U{202F}'
    || c == '\U{205F}'
    || c == '\U{3000}'
  }

  /** The 25 code points that have it, one by one. */
  lemma WhitespaceExact(c: char)
    ensures IsWhitespace(c) <==> c as int in {
              0x9, 0xA, 0xB, 0xC, 0xD, 0x20, 0x85, 0xA0, 0x1680, 0x2000, 0x2001, 0x2002, 0x2003, 0x2004, 0x2005,
              0x2006, 0x2007, 0x2008, 0x2009, 0x200A, 0x2028, 0x2029, 0x202F, 0x205F, 0x3000}
  {
  }

  function TrimStart(s: string): string {
    if s != "" && IsWhitespace(s[0]) then TrimStart(s[1..]) else s
  }

  function TrimEnd(s: string): string {
    if s != "" && IsWhitespace(s[|s| - 1]) then TrimEnd(s[..|s| - 1]) else s
  }

  function Trim(s: string): string {
    TrimEnd(TrimStart(s))
  }

  /** Nothing is left after trimming. */
  predicate IsBlank(s: string) {
    Trim(s) == ""
  }

  lemma TrimCons(c: char, s: string)
    requires IsWhitespace(c)
    ensures Trim([c] + s) == Trim(s)
  {
    assert ([c] + s)[1..] == s;
  }

  lemma {:induction false} TrimStartSnoc(s: string, c: char)
    ensures TrimStart(s + [c]) ==
            if TrimStart(s) != "" then TrimStart(s) + [c] else if IsWhitespace(c) then "" else [c]
  {
    if s == "" {
      assert s + [c] == [c] && [c][1..] == "";
    } else {
      assert (s + [c])[0] == s[0] && (s + [c])[1..] == s[1..] + [c];
      TrimStartSnoc(s[1..], c);
    }
  }

  lemma TrimSnoc(s: string, c: char)
    requires IsWhitespace(c)
    ensures Trim(s + [c]) == Trim(s)
  {
    TrimStartSnoc(s, c);
    var t := TrimStart(s);
    if t != "" {
      assert (t + [c])[..|t|] == t;
    }
  }

  lemma {:induction false} TrimOfTrimEnd(s: string)
    ensures Trim(TrimEnd(s)) == Trim(s)
  {
    if s != "" && IsWhitespace(s[|s| - 1]) {
      TrimOfTrimEnd(s[..|s| - 1]);
      TrimSnoc(s[..|s| - 1], s[|s| - 1]);
      assert s == s[..|s| - 1] + [s[|s| - 1]];
    }
  }

  lemma {:induction false} TrimOfTrimStart(s: string)
    ensures Trim(TrimStart(s)) == Trim(s)
  {
    if s != "" && IsWhitespace(s[0]) {
      TrimOfTrimStart(s[1..]);
      assert s == [s[0]] + s[1..];
    }
  }

  /** Text around a character that is not whitespace is trimmed from the outside only. */
  lemma {:induction false} TrimAround(a: string, c: char, b: string)
    requires !IsWhitespace(c)
    ensures Trim(a + [c] + b) == TrimStart(a) + [c] + TrimEnd(b)
    decreases |a|
  {
    if a != "" && IsWhitespace(a[0]) {
      assert a + [c] + b == [a[0]] + (a[1..] + [c] + b);
      TrimCons(a[0], a[1..] + [c] + b);
      TrimAround(a[1..], c, b);
    } else {
      var s := a + [c] + b;
      assert s[0] == if a == "" then c else a[0];
      TrimEndKeeps(a, c, b);
    }
  }

  lemma {:induction false} TrimEndKeeps(a: string, c: char, b: string)
    requires !IsWhitespace(c)
    ensures TrimEnd(a + [c] + b) == a + [c] + TrimEnd(b)
    decreases |b|
  {
    var s := a + [c] + b;
    if b != "" {
      assert s[|s| - 1] == b[|b| - 1] && s[..|s| - 1] == a + [c] + b[..|b| - 1];
      if IsWhitespace(b[|b| - 1]) {
        TrimEndKeeps(a, c, b[..|b| - 1]);
      }
    } else {
      assert s[|s| - 1] == c && s == a + [c];
    }
  }

  predicate AllWhitespace(s: string) {
    forall i :: 0 <= i < |s| ==> IsWhitespace(s[i])
  }

  lemma {:induction false} TrimStartExact(s: string) returns (k: nat)
    ensures k <= |s| && AllWhitespace(s[..k]) && TrimStart(s) == s[k..]
    ensures TrimStart(s) != "" ==> !IsWhitespace(TrimStart(s)[0])
  {
    k := 0;
    if s != "" && IsWhitespace(s[0]) {
      var rest := TrimStartExact(s[1..]);
      k := rest + 1;
      assert s[..k] == [s[0]] + s[1..][..rest] && s[1..][rest..] == s[k..];
    }
  }

  lemma {:induction false} TrimEndExact(s: string) returns (k: nat)
    ensures k <= |s| && AllWhitespace(s[k..]) && TrimEnd(s) == s[..k]
    ensures TrimEnd(s) != "" ==> !IsWhitespace(TrimEnd(s)[|TrimEnd(s)| - 1])
  {
    k := |s|;
    if s != "" && IsWhitespace(s[|s| - 1]) {
      k := TrimEndExact(s[..|s| - 1]);
      assert s[k..] == s[..|s| - 1][k..] + [s[|s| - 1]] && s[..|s| - 1][..k] == s[..k];
    }
  }

  /** Trimming takes the whitespace off both ends, all of it, and nothing else. */
  lemma TrimExact(s: string) returns (i: nat, j: nat)
    ensures i <= j <= |s| && Trim(s) == s[i..j]
    ensures AllWhitespace(s[..i]) && AllWhitespace(s[j..])
    ensures i < j ==> !IsWhitespace(s[i]) && !IsWhitespace(s[j - 1])
  {
    i := TrimStartExact(s);
    var k := TrimEndExact(s[i..]);
    j := i + k;
    assert s[i..][k..] == s[j..] && s[i..][..k] == s[i..j];
    if k > 0 {
      assert s[i] == TrimStart(s)[0] && s[j - 1] == TrimEnd(s[i..])[k - 1];
    }
  }

  /** Blank: no character but whitespace. */
  lemma BlankExact(s: string)
    ensures IsBlank(s) <==> AllWhitespace(s)
    ensures IsBlank(s) <==> !exists i :: 0 <= i < |s| && !IsWhitespace(s[i])
  {
    var i, j := TrimExact(s);
    if i == j {
      assert s == s[..i] + s[j..];
    }
  }
}
