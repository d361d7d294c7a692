/** Character classes and whole-string rewrites shared by the link rewriter and
    the note renderer. */
module Text {

  /** Python's `\s` on `str` patterns, i.e. `str.isspace()`: the ASCII controls
      tab to carriage return, the separators 0x1C-0x1F, space, NEL, no-break
      space and the remaining Unicode space separators. */
  predicate IsSpace(c: char) {
    || ('\t' <= c <= '\r')
    || ('\U{1C}' <= c <= ' ')
    || c == '\U{85}' || c == '\U{A0}' || c == '\U{1680}'
    || ('\U{2000}' <= c <= '\U{200A}')
    || c == '\U{2028}' || c == '\U{2029}' || c == '\U{202F}' || c == '\U{205F}'
    || c == '\U{3000}'
  }

  /** `s.endswith(suffix)` */
  predicate EndsWith(s: string, suffix: string) {
    |suffix| <= |s| && s[|s| - |suffix|..] == suffix
  }

  lemma PrefixOfLonger(a: string, b: string, c: string)
    requires a <= b
    ensures a <= b + c
  {
    assert (b + c)[..|b|] == b;
  }

  lemma EndsWithAppend(a: string, b: string)
    ensures EndsWith(a + b, b)
  {
    assert (a + b)[|a|..] == b;
  }

  /** The whitespace characters of `s`, in order. */
  function Spaces(s: string): (r: string)
    ensures forall i :: 0 <= i < |r| ==> IsSpace(r[i])
    ensures |r| <= |s|
  {
    if s == [] then []
    else (if IsSpace(s[0]) then [s[0]] else []) + Spaces(s[1..])
  }

  lemma {:induction false} SpacesAppend(a: string, b: string)
    ensures Spaces(a + b) == Spaces(a) + Spaces(b)
  {
    if a == [] {
      assert a + b == b;
    } else {
      assert (a + b)[1..] == a[1..] + b;
      SpacesAppend(a[1..], b);
    }
  }

  /** Strings without a whitespace character contribute nothing to `Spaces`. */
  lemma {:induction false} SpacesOfNonSpace(s: string)
    requires forall i :: 0 <= i < |s| ==> !IsSpace(s[i])
    ensures Spaces(s) == []
  {
    if s != [] {
      SpacesOfNonSpace(s[1..]);
    }
  }

  /** Number of line feeds in `s`. */
  function NewlineCount(s: string): nat {
    if s == [] then 0 else (if s[0] == '\n' then 1 else 0) + NewlineCount(s[1..])
  }

  /** `s.replace('\n', '\n\n')`: every line feed becomes two, everything else is
      copied. */
  function DoubleNewlines(s: string): (r: string)
    ensures |r| == |s| + NewlineCount(s)
    ensures NewlineCount(r) == 2 * NewlineCount(s)
  {
    if s == [] then []
    else (if s[0] == '\n' then "\n\n" else [s[0]]) + DoubleNewlines(s[1..])
  }

  /** Inverse of `DoubleNewlines`: each pair of line feeds becomes one. */
  function HalveNewlines(s: string): string
  {
    if s == [] then []
    else if |s| >= 2 && s[0] == '\n' && s[1] == '\n' then "\n" + HalveNewlines(s[2..])
    else [s[0]] + HalveNewlines(s[1..])
  }

  /** Doubling line feeds loses nothing: halving them gives the text back. */
  lemma {:induction false} HalveDoubleNewlines(s: string)
    ensures HalveNewlines(DoubleNewlines(s)) == s
  {
    if s != [] {
      var d := DoubleNewlines(s);
      HalveDoubleNewlines(s[1..]);
      if s[0] == '\n' {
        assert d == "\n\n" + DoubleNewlines(s[1..]);
        assert d[2..] == DoubleNewlines(s[1..]);
      } else {
        assert d == [s[0]] + DoubleNewlines(s[1..]);
        assert d[1..] == DoubleNewlines(s[1..]);
      }
    }
  }

  lemma {:induction false} DoubleNewlinesAppend(a: string, b: string)
    ensures DoubleNewlines(a + b) == DoubleNewlines(a) + DoubleNewlines(b)
  {
    if a == [] {
      assert a + b == b;
    } else {
      assert (a + b)[1..] == a[1..] + b;
      DoubleNewlinesAppend(a[1..], b);
    }
  }

  /** Text without line feeds is left alone by `DoubleNewlines`. */
  lemma {:induction false} DoubleNewlinesNoNewline(s: string)
    requires forall i :: 0 <= i < |s| ==> s[i] != '\n'
    ensures DoubleNewlines(s) == s
  {
    if s != [] {
      DoubleNewlinesNoNewline(s[1..]);
    }
  }

  /** `sep.join(xs)` */
  function Join(xs: seq<string>, sep: string): string
  {
    if |xs| == 0 then ""
    else if |xs| == 1 then xs[0]
    else xs[0] + sep + Join(xs[1..], sep)
  }

  /** `s` has no occurrence of the label separator ", ". */
  predicate NoCommaSpace(s: string) {
    forall i :: 0 <= i < |s| - 1 ==> !(s[i] == ',' && s[i + 1] == ' ')
  }

  /** `s.split(", ")`: cuts at every occurrence of ", ", scanning left to right. */
  function SplitCommaSpace(s: string): (r: seq<string>)
    ensures |r| >= 1
  {
    if s == [] then [""]
    else if ", " <= s then [""] + SplitCommaSpace(s[2..])
    else
      var rest := SplitCommaSpace(s[1..]);
      [[s[0]] + rest[0]] + rest[1..]
  }

  lemma {:induction false} SplitPiece(x: string, tail: string)
    requires NoCommaSpace(x)
    ensures SplitCommaSpace(x + ", " + tail) == [x] + SplitCommaSpace(tail)
  {
    var s := x + ", " + tail;
    if x == [] {
      assert s == ", " + tail;
      assert s[2..] == tail;
    } else {
      assert !(", " <= s) by {
        if |x| == 1 {
          assert s[1] == ',';
        } else {
          assert s[0] == x[0] && s[1] == x[1];
          assert !(x[0] == ',' && x[1] == ' ');
        }
      }
      assert s[1..] == x[1..] + ", " + tail;
      SplitPiece(x[1..], tail);
      assert [x[0]] + x[1..] == x;
    }
  }

  lemma {:induction false} SplitWhole(x: string)
    requires NoCommaSpace(x)
    ensures SplitCommaSpace(x) == [x]
  {
    if x != [] {
      assert !(", " <= x) by {
        if |x| >= 2 {
          assert !(x[0] == ',' && x[1] == ' ');
        }
      }
      SplitWhole(x[1..]);
      assert [x[0]] + x[1..] == x;
    }
  }

  /** Joining with ", " can be undone by splitting on ", " when no piece contains
      the separator itself. */
  lemma {:induction false} SplitJoin(xs: seq<string>)
    requires |xs| >= 1
    requires forall i :: 0 <= i < |xs| ==> NoCommaSpace(xs[i])
    ensures SplitCommaSpace(Join(xs, ", ")) == xs
  {
    if |xs| == 1 {
      SplitWhole(xs[0]);
    } else {
      SplitJoin(xs[1..]);
      SplitPiece(xs[0], Join(xs[1..], ", "));
    }
  }
}
