/** The two pieces of JavaScript value semantics the application leans on:
    truthiness of nullable strings and numbers, and `String.prototype.trim`. */
module JsValues {
  import opened Wrappers

  /** A nullable string in a boolean context: `null`, `undefined` and `""` are falsy. */
  predicate StrTruthy(o: Option<string>) {
    o.Some? && o.value != ""
  }

  /** A nullable integer in a boolean context: `null`, `undefined` and `0` are falsy. */
  predicate IntTruthy(o: Option<int>) {
    o.Some? && o.value != 0
  }

  /** `o || null` on a nullable string. */
  function StrOrNull(o: Option<string>): (r: Option<string>)
    ensures r.Some? <==> StrTruthy(o)
    ensures r.Some? ==> r == o
  {
    if StrTruthy(o) then o else None
  }

  /** `o || 0` on a nullable integer. */
  function IntOrZero(o: Option<int>): (r: int)
    ensures r == 0 <==> !IntTruthy(o)
    ensures IntTruthy(o) ==> r == o.value
  {
    if IntTruthy(o) then o.value else 0
  }

  /** The code points `trim` removes: the WhiteSpace and LineTerminator
      productions of ECMA-262 (tab, vertical tab, form feed, space, no-break
      space, byte order mark, the Unicode space separators, LF, CR, line and
      paragraph separators). */
  predicate IsTrimmable(c: char) {
    || c == '\t' || c == '\n' || c == '\U{000B}' || c == '\U{000C}' || c == '\r'
    || c == ' ' || c == '\U{00A0}' || c == '\U{1680}'
    || ('\U{2000}' <= c <= '\U{200A}')
    || c == '\U{2028}' || c == '\U{2029}' || c == '\U{202F}' || c == '\U{205F}'
    || c == '\U{3000}' || c == '\U{FEFF}'
  }

  /** A string made only of trimmable code points (`s.trim()` is falsy). */
  predicate Blank(s: string) {
    forall i | 0 <= i < |s| :: IsTrimmable(s[i])
  }

  /** Neither end of `s` is trimmable. */
  predicate Tight(s: string) {
    s == [] || (!IsTrimmable(s[0]) && !IsTrimmable(s[|s| - 1]))
  }

  function TrimStart(s: string): (r: string)
    ensures |r| <= |s| && r == s[|s| - |r|..]
    ensures Blank(s[..|s| - |r|])
    ensures r == [] || !IsTrimmable(r[0])
  {
    if |s| > 0 && IsTrimmable(s[0]) then
      var r := TrimStart(s[1..]);
      assert s[..|s| - |r|] == [s[0]] + s[1..][..|s| - 1 - |r|];
      r
    else
      s
  }

  function TrimEnd(s: string): (r: string)
    ensures |r| <= |s| && r == s[..|r|]
    ensures Blank(s[|r|..])
    ensures r == [] || !IsTrimmable(r[|r| - 1])
  {
    if |s| > 0 && IsTrimmable(s[|s| - 1]) then
      var r := TrimEnd(s[..|s| - 1]);
      assert s[|r|..] == s[..|s| - 1][|r|..] + [s[|s| - 1]];
      r
    else
      s
  }

  /** `s.trim()`: the trimmed string is empty exactly for a blank input and
      otherwise starts and ends with a non-trimmable code point. */
  function Trim(s: string): (r: string)
    ensures |r| <= |s|
    ensures r == [] <==> Blank(s)
    ensures Tight(r)
  {
    var t := TrimStart(s);
    var r := TrimEnd(t);
    if r == [] then
      assert Blank(s) by {
        assert s == s[..|s| - |t|] + t;
        assert t == t[..0] + t[0..];
      }
      r
    else
      r
  }

  lemma {:induction false} TrimStartOfPadded(a: string, t: string)
    requires Blank(a)
    requires t == [] || !IsTrimmable(t[0])
    ensures TrimStart(a + t) == t
    decreases |a|
  {
    if |a| > 0 {
      assert (a + t)[1..] == a[1..] + t;
      TrimStartOfPadded(a[1..], t);
    } else {
      assert a + t == t;
    }
  }

  lemma {:induction false} TrimEndOfPadded(t: string, b: string)
    requires Blank(b)
    requires t == [] || !IsTrimmable(t[|t| - 1])
    ensures TrimEnd(t + b) == t
    decreases |b|
  {
    if |b| > 0 {
      assert (t + b)[..|t + b| - 1] == t + b[..|b| - 1];
      TrimEndOfPadded(t, b[..|b| - 1]);
    } else {
      assert t + b == t;
    }
  }

  /** `trim` is characterised by what it removes: stripping blank padding
      from either side of a tight string gives that string back. */
  lemma TrimOfPadded(a: string, m: string, b: string)
    requires Blank(a) && Blank(b) && Tight(m)
    ensures Trim(a + m + b) == m
  {
    if m == [] {
      assert a + m + b == (a + b) + [];
      TrimStartOfPadded(a + b, []);
    } else {
      assert a + m + b == a + (m + b);
      TrimStartOfPadded(a, m + b);
      TrimEndOfPadded(m, b);
    }
  }

  /** Trimming twice is trimming once. */
  lemma TrimIdempotent(s: string)
    ensures Trim(Trim(s)) == Trim(s)
  {
    var m := Trim(s);
    assert [] + m + [] == m;
    TrimOfPadded([], m, []);
  }
}
