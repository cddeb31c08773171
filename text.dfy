/** The Python string operations the pipeline relies on: str.strip(), str.split(sep)
    with its inverse str.join, and str.replace(c, "") for a single character. */
module Text {

  /** Python's str.isspace() for one character: the ASCII controls \t \n \v \f \r,
      the separators 0x1C-0x1F, the space, and the Unicode spaces and line breaks. */
  predicate IsSpace(c: char) {
    var n := c as int;
    (9 <= n <= 13) || (28 <= n <= 32) || n == 0x85 || n == 0xA0 || n == 0x1680
    || (0x2000 <= n <= 0x200A) || n == 0x2028 || n == 0x2029 || n == 0x202F
    || n == 0x205F || n == 0x3000
  }

  predicate AllSpace(s: string) {
    forall i :: 0 <= i < |s| ==> IsSpace(s[i])
  }

  /** A string that str.strip() leaves as it is. */
  predicate Trimmed(s: string) {
    s == [] || (!IsSpace(s[0]) && !IsSpace(s[|s| - 1]))
  }

  /** `r` is `s` with some whitespace removed from its two ends. */
  ghost predicate Infix(s: string, r: string) {
    exists a, b :: s == a + r + b && AllSpace(a) && AllSpace(b)
  }

  /** str.strip(): the whitespace at both ends removed. */
  function Strip(s: string): (r: string)
    ensures |r| <= |s|
    ensures Trimmed(r)
    decreases |s|
  {
    if s == [] || (!IsSpace(s[0]) && !IsSpace(s[|s| - 1])) then s
    else if IsSpace(s[0]) then Strip(s[1..])
    else Strip(s[..|s| - 1])
  }

  /** What Strip removes is whitespace, and only from the two ends. */
  lemma {:induction false} StripInfix(s: string)
    ensures Infix(s, Strip(s))
    decreases |s|
  {
    if s == [] || (!IsSpace(s[0]) && !IsSpace(s[|s| - 1])) {
      InfixSelf(s);
    } else if IsSpace(s[0]) {
      StripInfix(s[1..]);
      InfixFront(s, Strip(s[1..]));
    } else {
      StripInfix(s[..|s| - 1]);
      InfixBack(s, Strip(s[..|s| - 1]));
    }
  }

  lemma InfixSelf(s: string)
    ensures Infix(s, s)
  {
    var e: string := [];
    assert s == e + s + e && AllSpace(e);
  }

  lemma AllSpaceCons(c: char, x: string)
    requires IsSpace(c) && AllSpace(x)
    ensures AllSpace([c] + x)
  {
    assert forall k :: 1 <= k < |x| + 1 ==> ([c] + x)[k] == x[k - 1];
  }

  lemma AllSpaceSnoc(x: string, c: char)
    requires AllSpace(x) && IsSpace(c)
    ensures AllSpace(x + [c])
  {
    assert forall k :: 0 <= k < |x| ==> (x + [c])[k] == x[k];
  }

  lemma InfixFront(s: string, r: string)
    requires s != [] && IsSpace(s[0]) && Infix(s[1..], r)
    ensures Infix(s, r)
  {
    var a, b :| s[1..] == a + r + b && AllSpace(a) && AllSpace(b);
    AllSpaceCons(s[0], a);
    assert s == ([s[0]] + a) + r + b;
  }

  lemma InfixBack(s: string, r: string)
    requires s != [] && IsSpace(s[|s| - 1]) && Infix(s[..|s| - 1], r)
    ensures Infix(s, r)
  {
    var a, b :| s[..|s| - 1] == a + r + b && AllSpace(a) && AllSpace(b);
    AllSpaceSnoc(b, s[|s| - 1]);
    assert s == a + r + (b + [s[|s| - 1]]);
  }

  lemma {:induction false} StripLeading(a: string, u: string)
    requires AllSpace(a)
    ensures Strip(a + u) == Strip(u)
    decreases |a|
  {
    if a == [] {
      assert a + u == u;
    } else {
      var s := a + u;
      assert s[0] == a[0] && s[1..] == a[1..] + u;
      StripLeading(a[1..], u);
    }
  }

  lemma {:induction false} StripBlank(b: string)
    requires AllSpace(b)
    ensures Strip(b) == []
    decreases |b|
  {
    if b != [] {
      StripBlank(b[1..]);
    }
  }

  lemma {:induction false} StripTrailing(t: string, b: string)
    requires t != [] && Trimmed(t) && AllSpace(b)
    ensures Strip(t + b) == t
    decreases |b|
  {
    var s := t + b;
    if b == [] {
      assert s == t;
    } else {
      assert s[0] == t[0] && s[|s| - 1] == b[|b| - 1];
      assert s[..|s| - 1] == t + b[..|b| - 1];
      StripTrailing(t, b[..|b| - 1]);
    }
  }

  /** Strip is determined by its contract: whatever whitespace surrounds a trimmed
      string, stripping gives that string back. */
  lemma StripExact(a: string, t: string, b: string)
    requires AllSpace(a) && AllSpace(b) && Trimmed(t)
    ensures Strip(a + t + b) == t
  {
    assert a + t + b == a + (t + b);
    StripLeading(a, t + b);
    if t == [] {
      assert t + b == b;
      StripBlank(b);
    } else {
      StripTrailing(t, b);
    }
  }

  /** Stripping twice is stripping once. */
  lemma StripIdempotent(s: string)
    ensures Strip(Strip(s)) == Strip(s)
  {
    var r := Strip(s);
    assert [] + r + [] == r;
    StripExact([], r, []);
  }

  /** str.join with a one-character separator. */
  function Join(pieces: seq<string>, sep: char): string
    decreases |pieces|
  {
    if |pieces| == 0 then ""
    else if |pieces| == 1 then pieces[0]
    else pieces[0] + [sep] + Join(pieces[1..], sep)
  }

  /** str.split(sep) with an explicit one-character separator: the pieces between
      separators, empty ones included, so never an empty list. */
  function Split(s: string, sep: char): (pieces: seq<string>)
    ensures |pieces| >= 1
    ensures forall i :: 0 <= i < |pieces| ==> sep !in pieces[i]
    ensures Join(pieces, sep) == s
    decreases |s|
  {
    if s == [] then [""]
    else if s[0] == sep then
      var rest := Split(s[1..], sep);
      assert ([""] + rest)[1..] == rest;
      assert s == [sep] + s[1..];
      [""] + rest
    else
      var rest := Split(s[1..], sep);
      var pieces := [[s[0]] + rest[0]] + rest[1..];
      assert pieces[1..] == rest[1..];
      assert s == [s[0]] + s[1..];
      pieces
  }

  lemma {:induction false} SplitNoSeparator(x: string, sep: char)
    requires sep !in x
    ensures Split(x, sep) == [x]
  {
    if x != [] {
      SplitNoSeparator(x[1..], sep);
      assert [x[0]] + x[1..] == x;
    }
  }

  lemma {:induction false} SplitAtSeparator(x: string, sep: char, y: string)
    requires sep !in x
    ensures Split(x + [sep] + y, sep) == [x] + Split(y, sep)
  {
    if x == [] {
      assert x + [sep] + y == [sep] + y;
      assert ([sep] + y)[1..] == y;
    } else {
      assert (x + [sep] + y)[1..] == x[1..] + [sep] + y;
      SplitAtSeparator(x[1..], sep, y);
      assert [x[0]] + x[1..] == x;
    }
  }

  /** Splitting undoes joining: the pieces of a split are the only separator-free
      pieces that join back to the string. */
  lemma {:induction false} SplitJoin(pieces: seq<string>, sep: char)
    requires |pieces| >= 1
    requires forall i :: 0 <= i < |pieces| ==> sep !in pieces[i]
    ensures Split(Join(pieces, sep), sep) == pieces
    decreases |pieces|
  {
    if |pieces| == 1 {
      SplitNoSeparator(pieces[0], sep);
    } else {
      SplitJoin(pieces[1..], sep);
      SplitAtSeparator(pieces[0], sep, Join(pieces[1..], sep));
      assert [pieces[0]] + pieces[1..] == pieces;
    }
  }

  /** str.replace(c, ""): every occurrence of `c` removed, the other characters kept in order. */
  function RemoveAll(s: string, c: char): (r: string)
    ensures c !in r
    ensures |r| <= |s|
    decreases |s|
  {
    if s == [] then [] else (if s[0] == c then [] else [s[0]]) + RemoveAll(s[1..], c)
  }

  /** Every other character occurs after the removal exactly when it occurred before. */
  lemma {:induction false} RemoveAllKeeps(s: string, c: char, d: char)
    requires d != c
    ensures d in RemoveAll(s, c) <==> d in s
    decreases |s|
  {
    if s != [] {
      RemoveAllKeeps(s[1..], c, d);
      assert d in s <==> d == s[0] || d in s[1..] by {
        assert s == [s[0]] + s[1..];
      }
    }
  }

  lemma {:induction false} RemoveAllConcat(x: string, y: string, c: char)
    ensures RemoveAll(x + y, c) == RemoveAll(x, c) + RemoveAll(y, c)
    decreases |x|
  {
    if x == [] {
      assert x + y == y;
    } else {
      var s := x + y;
      assert s[0] == x[0] && s[1..] == x[1..] + y;
      RemoveAllConcat(x[1..], y, c);
      var head := if x[0] == c then [] else [x[0]];
      var rest, tail := RemoveAll(x[1..], c), RemoveAll(y, c);
      assert RemoveAll(s, c) == head + (rest + tail);
      assert RemoveAll(x, c) == head + rest;
      assert head + (rest + tail) == (head + rest) + tail;
    }
  }

  lemma {:induction false} RemoveAllAbsent(s: string, c: char)
    requires c !in s
    ensures RemoveAll(s, c) == s
    decreases |s|
  {
    if s != [] {
      RemoveAllAbsent(s[1..], c);
      assert [s[0]] + s[1..] == s;
    }
  }

  /** ASCII lower-casing, as a case-insensitive match of ASCII words uses it. */
  function Lower(c: char): char {
    if 'A' <= c <= 'Z' then (c as int + 32) as char else c
  }

  predicate EqualsIgnoreCase(a: string, b: string) {
    |a| == |b| && forall i :: 0 <= i < |a| ==> Lower(a[i]) == Lower(b[i])
  }
}
