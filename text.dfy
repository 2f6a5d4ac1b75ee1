/**
 String handling used on the line read from the colour sensor: Python's
 whitespace class, `str.strip()` with no argument, and `str.split(sep)`
 with an explicit separator, together with the `join` that undoes it.
 */
module Text {

  /** Python's `str.isspace` for one code point: the characters that
      `str.strip()` with no argument removes. */
  predicate IsSpace(c: char) {
    var n := c as int;
    || 0x09 <= n <= 0x0D
    || 0x1C <= n <= 0x20
    || n == 0x85 || n == 0xA0 || n == 0x1680
    || 0x2000 <= n <= 0x200A
    || n == 0x2028 || n == 0x2029 || n == 0x202F || n == 0x205F || n == 0x3000
  }

  ghost predicate AllSpace(s: string) {
    forall k :: 0 <= k < |s| ==> IsSpace(s[k])
  }

  /** Removes the longest all-whitespace prefix. */
  function StripLeft(s: string): (r: string)
    ensures |r| <= |s| && r == s[|s| - |r|..]
    ensures forall k :: 0 <= k < |s| - |r| ==> IsSpace(s[k])
    ensures r == [] || !IsSpace(r[0])
  {
    if s != [] && IsSpace(s[0]) then StripLeft(s[1..]) else s
  }

  /** Removes the longest all-whitespace suffix. */
  function StripRight(s: string): (r: string)
    ensures |r| <= |s| && r == s[..|r|]
    ensures forall k :: |r| <= k < |s| ==> IsSpace(s[k])
    ensures r == [] || !IsSpace(r[|r| - 1])
  {
    if s != [] && IsSpace(s[|s| - 1]) then StripRight(s[..|s| - 1]) else s
  }

  /** `s.strip()`: neither starts nor ends with whitespace. */
  function Strip(s: string): (r: string)
    ensures r == [] || (!IsSpace(r[0]) && !IsSpace(r[|r| - 1]))
  {
    var l := StripLeft(s);
    assert StripRight(l) != [] ==> StripRight(l)[0] == l[0];
    StripRight(l)
  }

  /** The number of whitespace characters `strip` removes at the front. */
  ghost function Indent(s: string): nat {
    |s| - |StripLeft(s)|
  }

  /** What `strip` returns is a contiguous piece of `s`, and everything
      around that piece is whitespace. */
  lemma StripIsTrim(s: string)
    ensures var r := Strip(s);
            && Indent(s) + |r| <= |s| && r == s[Indent(s)..Indent(s) + |r|]
            && (forall k :: 0 <= k < Indent(s) ==> IsSpace(s[k]))
            && (forall k :: Indent(s) + |r| <= k < |s| ==> IsSpace(s[k]))
  {
    var l := StripLeft(s);
    TrimSlices(s, Indent(s), l, StripRight(l));
  }

  /** A prefix `r` of the suffix `l` of `s` that starts at `n`. */
  lemma TrimSlices(s: string, n: nat, l: string, r: string)
    requires n + |l| == |s| && l == s[n..]
    requires |r| <= |l| && r == l[..|r|]
    requires forall k :: |r| <= k < |l| ==> IsSpace(l[k])
    ensures n + |r| <= |s| && r == s[n..n + |r|]
    ensures forall k :: n + |r| <= k < |s| ==> IsSpace(s[k])
  {
    forall k | n + |r| <= k < |s| ensures IsSpace(s[k]) {
      assert s[k] == l[k - n];
    }
  }

  lemma {:induction false} StripLeftSpaces(p: string, x: string)
    requires AllSpace(p)
    ensures StripLeft(p + x) == StripLeft(x)
  {
    if p == [] {
      assert p + x == x;
    } else {
      assert (p + x)[0] == p[0] && (p + x)[1..] == p[1..] + x;
      StripLeftSpaces(p[1..], x);
    }
  }

  lemma {:induction false} StripRightSpaces(x: string, q: string)
    requires AllSpace(q)
    ensures StripRight(x + q) == StripRight(x)
  {
    if q == [] {
      assert x + q == x;
    } else {
      assert (x + q)[|x + q| - 1] == q[|q| - 1];
      assert (x + q)[..|x + q| - 1] == x + q[..|q| - 1];
      StripRightSpaces(x, q[..|q| - 1]);
    }
  }

  lemma {:induction false} StripLeftAppend(x: string, y: string)
    requires StripLeft(x) != []
    ensures StripLeft(x + y) == StripLeft(x) + y
  {
    assert (x + y)[0] == x[0];
    if IsSpace(x[0]) {
      assert (x + y)[1..] == x[1..] + y;
      StripLeftAppend(x[1..], y);
    }
  }

  lemma StripLeftAllSpace(s: string)
    requires StripLeft(s) == []
    ensures AllSpace(s)
  {
  }

  /** Whitespace around a line does not change what `strip` gives. */
  lemma StripPadded(p: string, s: string, q: string)
    requires AllSpace(p) && AllSpace(q)
    ensures Strip(p + s + q) == Strip(s)
  {
    assert p + s + q == p + (s + q);
    StripLeftSpaces(p, s + q);
    if StripLeft(s) == [] {
      StripLeftAllSpace(s);
      StripLeftSpaces(s, q);
      StripLeftSpaces(q, []);
      assert q + [] == q;
    } else {
      StripLeftAppend(s, q);
      StripRightSpaces(StripLeft(s), q);
    }
  }

  /** Text that neither starts nor ends with whitespace is left alone. */
  lemma StripUnpadded(s: string)
    requires s == [] || (!IsSpace(s[0]) && !IsSpace(s[|s| - 1]))
    ensures Strip(s) == s
  {
  }

  /** A second `strip` changes nothing. */
  lemma StripIdempotent(s: string)
    ensures Strip(Strip(s)) == Strip(s)
  {
  }

  /** Number of occurrences of `c` in `s`. */
  function Count(s: string, c: char): nat {
    if s == [] then 0 else (if s[0] == c then 1 else 0) + Count(s[1..], c)
  }

  /** `sep.join(fields)`. */
  function Join(fields: seq<string>, sep: char): string
    requires |fields| > 0
  {
    if |fields| == 1 then fields[0] else fields[0] + [sep] + Join(fields[1..], sep)
  }

  /** `s.split(sep)`: one field more than there are separators, empty
      fields kept, no field contains the separator, and joining the
      fields with the separator gives `s` back. */
  function Split(s: string, sep: char): (r: seq<string>)
    ensures |r| == Count(s, sep) + 1
    ensures forall i :: 0 <= i < |r| ==> sep !in r[i]
    ensures Join(r, sep) == s
  {
    if s == [] then [[]]
    else
      var rest := Split(s[1..], sep);
      if s[0] == sep then
        assert s == [sep] + s[1..];
        [[]] + rest
      else
        var r := [[s[0]] + rest[0]] + rest[1..];
        assert r[1..] == rest[1..];
        assert s == [s[0]] + s[1..];
        r
  }

  lemma {:induction false} SplitField(f: string, sep: char)
    requires sep !in f
    ensures Split(f, sep) == [f]
  {
    if f != [] {
      SplitField(f[1..], sep);
    }
  }

  lemma {:induction false} SplitFieldThen(f: string, sep: char, t: string)
    requires sep !in f
    ensures Split(f + [sep] + t, sep) == [f] + Split(t, sep)
  {
    if f == [] {
      assert ([sep] + t)[1..] == t;
    } else {
      assert (f + [sep] + t)[0] == f[0] && (f + [sep] + t)[1..] == f[1..] + [sep] + t;
      SplitFieldThen(f[1..], sep, t);
      assert [f[0]] + f[1..] == f;
      var rest := Split(f[1..] + [sep] + t, sep);
      assert rest[0] == f[1..] && rest[1..] == Split(t, sep);
    }
  }

  /** Splitting undoes joining fields that do not contain the separator. */
  lemma {:induction false} SplitJoin(fields: seq<string>, sep: char)
    requires |fields| > 0
    requires forall i :: 0 <= i < |fields| ==> sep !in fields[i]
    ensures Split(Join(fields, sep), sep) == fields
  {
    if |fields| == 1 {
      SplitField(fields[0], sep);
    } else {
      SplitJoin(fields[1..], sep);
      SplitFieldThen(fields[0], sep, Join(fields[1..], sep));
    }
  }
}
