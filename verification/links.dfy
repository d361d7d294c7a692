/** The link rewriter: every match of the pattern `https?://[^\s]+`, scanned
    left to right without overlap, becomes the Markdown link `[url](url)`. */
module Links {
  import opened Text

  const Https: string := "https://"
  const Http: string := "http://"

  /** Length of the `https?://` the pattern accepts at the start of `s`, or 0.
      The optional `s` is tried first, so `https://` wins over `http://`.
      Spelled out letter by letter; `SchemeLengthIsPrefix` relates it to the
      two scheme strings. */
  function SchemeLength(s: string): nat
  {
    if |s| >= 7 && s[0] == 'h' && s[1] == 't' && s[2] == 't' && s[3] == 'p' then
      if |s| >= 8 && s[4] == 's' && s[5] == ':' && s[6] == '/' && s[7] == '/' then 8
      else if s[4] == ':' && s[5] == '/' && s[6] == '/' then 7
      else 0
    else 0
  }

  /** `SchemeLength` recognises exactly the prefixes `https://` and `http://`,
      preferring the longer one. */
  lemma SchemeLengthIsPrefix(s: string)
    ensures SchemeLength(s) == 8 <==> Https <= s
    ensures SchemeLength(s) == 7 <==> Http <= s && !(Https <= s)
    ensures SchemeLength(s) == 0 <==> !(Http <= s) && !(Https <= s)
  {
    if Https <= s {
      assert s[..8] == Https;
      assert s[0] == 'h' && s[4] == 's' && s[7] == '/';
    }
    if Http <= s {
      assert s[..7] == Http;
      assert s[0] == 'h' && s[4] == ':' && s[6] == '/';
    }
    if SchemeLength(s) == 8 {
      assert s[..8] == Https;
    }
    if SchemeLength(s) == 7 {
      assert s[..7] == Http;
    }
  }

  /** The pattern matches at the start of `s`: a scheme followed by at least one
      non-whitespace character. */
  predicate LinkStartsAt(s: string)
  {
    var k := SchemeLength(s);
    k > 0 && |s| > k && !IsSpace(s[k])
  }

  /** Length of the leading run of non-whitespace characters of `s`. */
  function RunLength(s: string): (n: nat)
    ensures n <= |s|
    ensures forall i :: 0 <= i < n ==> !IsSpace(s[i])
    ensures n == |s| || IsSpace(s[n])
  {
    if s == [] || IsSpace(s[0]) then 0 else 1 + RunLength(s[1..])
  }

  /** A run of non-whitespace characters ended by whitespace or the end of the
      text has exactly that length. */
  lemma RunLengthExact(s: string, m: nat)
    requires m <= |s|
    requires forall i :: 0 <= i < m ==> !IsSpace(s[i])
    requires m == |s| || IsSpace(s[m])
    ensures RunLength(s) == m
  {
  }

  /** The scheme letters are not whitespace, so a match covers more than its
      scheme: the greedy `[^\s]+` always consumes at least one character. */
  lemma LinkRunCoversScheme(s: string)
    requires LinkStartsAt(s)
    ensures RunLength(s) > SchemeLength(s)
  {
  }

  /** A match depends only on the characters it covers: a text that starts with
      a match also starts a match, with the same scheme. */
  lemma LinkExtends(u: string, s: string)
    requires u <= s
    requires LinkStartsAt(u)
    ensures LinkStartsAt(s) && SchemeLength(s) == SchemeLength(u)
  {
    assert s[..|u|] == u;
    forall i | 0 <= i < |u|
      ensures s[i] == u[i]
    {
      assert s[..|u|][i] == s[i];
    }
  }

  /** Cutting a match after its scheme and one more character keeps it a match. */
  lemma LinkShrinks(s: string, m: nat)
    requires LinkStartsAt(s)
    requires SchemeLength(s) < m <= |s|
    ensures LinkStartsAt(s[..m])
  {
  }

  /** A text that starts with whitespace cannot start a match. */
  lemma SpaceStartsNoLink(s: string)
    requires s != [] && IsSpace(s[0])
    ensures !LinkStartsAt(s)
  {
  }

  /** The Markdown link for `u`. */
  function Wrap(u: string): string
  {
    "[" + u + "](" + u + ")"
  }

  /** `convert_links`: `re.sub(r'(https?://[^\s]+)', r'[\g<0>](\g<0>)', text)`. */
  function ConvertLinks(s: string): (r: string)
    ensures |r| >= |s|
    decreases |s|
  {
    if s == [] then []
    else if LinkStartsAt(s) then
      LinkRunCoversScheme(s);
      var n := RunLength(s);
      Wrap(s[..n]) + ConvertLinks(s[n..])
    else [s[0]] + ConvertLinks(s[1..])
  }

  // ---------------------------------------------------------------------------
  // A declarative reading of the rewrite: the text is cut into pieces, each a
  // single character copied as it is or a whole URL that gets wrapped.

  datatype Piece = Lit(c: char) | Url(u: string)

  /** The characters of the input that a piece covers. */
  function Source(x: Piece): string
  {
    match x
    case Lit(c) => [c]
    case Url(u) => u
  }

  /** The output a piece produces. */
  function Output(x: Piece): string
  {
    match x
    case Lit(c) => [c]
    case Url(u) => Wrap(u)
  }

  function Flatten(p: seq<Piece>): string
  {
    if p == [] then [] else Source(p[0]) + Flatten(p[1..])
  }

  function Render(p: seq<Piece>): string
  {
    if p == [] then [] else Output(p[0]) + Render(p[1..])
  }

  /** A URL piece: it starts a match and holds no whitespace. */
  predicate IsUrl(u: string)
  {
    LinkStartsAt(u) && forall i :: 0 <= i < |u| ==> !IsSpace(u[i])
  }

  /** Piece `i` is where the leftmost, greedy scan puts it: a URL is followed by
      whitespace or by nothing (it is maximal), and a copied character is never
      the start of a match. */
  predicate Fits(p: seq<Piece>, i: nat)
    requires i < |p|
  {
    match p[i]
    case Url(u) => IsUrl(u) && (i + 1 == |p| || (p[i + 1].Lit? && IsSpace(p[i + 1].c)))
    case Lit(_) => !LinkStartsAt(Flatten(p[i..]))
  }

  predicate WellFormed(p: seq<Piece>)
  {
    forall i :: 0 <= i < |p| ==> Fits(p, i)
  }

  /** The pieces the rewrite cuts `s` into. */
  function Segment(s: string): (p: seq<Piece>)
    ensures Flatten(p) == s
    decreases |s|
  {
    if s == [] then []
    else if LinkStartsAt(s) then
      LinkRunCoversScheme(s);
      var n := RunLength(s);
      assert s == s[..n] + s[n..];
      [Url(s[..n])] + Segment(s[n..])
    else
      assert s == [s[0]] + s[1..];
      [Lit(s[0])] + Segment(s[1..])
  }

  lemma WellFormedTail(p: seq<Piece>)
    requires p != [] && WellFormed(p)
    ensures WellFormed(p[1..])
  {
    var q := p[1..];
    forall i | 0 <= i < |q|
      ensures Fits(q, i)
    {
      assert Fits(p, i + 1);
      assert q[i] == p[i + 1];
      assert q[i..] == p[i + 1..];
      if i + 1 < |q| {
        assert q[i + 1] == p[i + 2];
      }
    }
  }

  lemma WellFormedCons(x: Piece, q: seq<Piece>)
    requires Fits([x] + q, 0)
    requires WellFormed(q)
    ensures WellFormed([x] + q)
  {
    var p := [x] + q;
    forall i | 0 <= i < |p|
      ensures Fits(p, i)
    {
      if i > 0 {
        assert Fits(q, i - 1);
        assert p[i] == q[i - 1];
        assert p[i..] == q[i - 1..];
        if i + 1 < |p| {
          assert p[i + 1] == q[i];
        }
      }
    }
  }

  /** The cut the rewrite makes satisfies the declarative reading. */
  lemma {:induction false} SegmentWellFormed(s: string)
    ensures WellFormed(Segment(s))
    decreases |s|
  {
    if s == [] {
    } else if LinkStartsAt(s) {
      LinkRunCoversScheme(s);
      var n := RunLength(s);
      var u := s[..n];
      var q := Segment(s[n..]);
      assert Segment(s) == [Url(u)] + q;
      SegmentWellFormed(s[n..]);
      LinkShrinks(s, n);
      assert IsUrl(u);
      if n < |s| {
        SpaceStartsNoLink(s[n..]);
        assert q[0] == Lit(s[n]);
      }
      WellFormedCons(Url(u), q);
    } else {
      var q := Segment(s[1..]);
      var p := [Lit(s[0])] + q;
      assert Segment(s) == p;
      assert p[0..] == p;
      SegmentWellFormed(s[1..]);
      WellFormedCons(Lit(s[0]), q);
    }
  }

  /** The declarative reading admits only one cut of a text. */
  lemma {:induction false} SegmentUnique(p: seq<Piece>, s: string)
    requires WellFormed(p) && Flatten(p) == s
    ensures p == Segment(s)
    decreases |p|
  {
    if p != [] {
      assert Fits(p, 0);
      WellFormedTail(p);
      var rest := Flatten(p[1..]);
      match p[0]
      case Lit(c) =>
        assert p[0..] == p;
        assert !LinkStartsAt(s);
        assert s[1..] == rest;
        SegmentUnique(p[1..], rest);
        assert p == [p[0]] + p[1..];
      case Url(u) =>
        assert s == u + rest;
        assert u <= s;
        LinkExtends(u, s);
        if |p| == 1 {
          assert rest == [];
        } else {
          assert rest == [p[1].c] + Flatten(p[2..]);
          assert s[|u|] == p[1].c;
        }
        RunLengthExact(s, |u|);
        assert s[..|u|] == u;
        assert s[|u|..] == rest;
        SegmentUnique(p[1..], rest);
        assert p == [p[0]] + p[1..];
    }
  }

  lemma {:induction false} ConvertLinksRendersSegment(s: string)
    ensures ConvertLinks(s) == Render(Segment(s))
    decreases |s|
  {
    if s != [] {
      if LinkStartsAt(s) {
        LinkRunCoversScheme(s);
        var n := RunLength(s);
        ConvertLinksRendersSegment(s[n..]);
        var p := [Url(s[..n])] + Segment(s[n..]);
        assert p[1..] == Segment(s[n..]);
      } else {
        ConvertLinksRendersSegment(s[1..]);
        var p := [Lit(s[0])] + Segment(s[1..]);
        assert p[1..] == Segment(s[1..]);
      }
    }
  }

  /** What `convert_links` does, independently of how it scans: cut the text into
      copied characters and maximal whitespace-free runs that start with
      `http://` or `https://` and are not preceded by a possible match start;
      wrap each run as `[run](run)`. Such a cut exists and is unique. */
  lemma ConvertLinksSpec(s: string, p: seq<Piece>)
    requires WellFormed(p) && Flatten(p) == s
    ensures ConvertLinks(s) == Render(p)
  {
    SegmentUnique(p, s);
    ConvertLinksRendersSegment(s);
  }

  lemma ConvertLinksSegmentExists(s: string)
    ensures WellFormed(Segment(s)) && Flatten(Segment(s)) == s
    ensures ConvertLinks(s) == Render(Segment(s))
  {
    SegmentWellFormed(s);
    ConvertLinksRendersSegment(s);
  }

  // ---------------------------------------------------------------------------
  // Identity on text without links.

  /** No position of `s` starts a match. */
  predicate NoLinkStart(s: string)
  {
    forall i :: 0 <= i < |s| ==> !LinkStartsAt(s[i..])
  }

  lemma {:induction false} NoLinkIdentity(s: string)
    requires NoLinkStart(s)
    ensures ConvertLinks(s) == s
    decreases |s|
  {
    if s != [] {
      assert s[0..] == s;
      assert NoLinkStart(s[1..]) by {
        forall i | 0 <= i < |s[1..]|
          ensures !LinkStartsAt(s[1..][i..])
        {
          assert s[1..][i..] == s[i + 1..];
        }
      }
      NoLinkIdentity(s[1..]);
    }
  }

  lemma {:induction false} LinkLengthens(s: string, i: nat)
    requires i < |s| && LinkStartsAt(s[i..])
    ensures |ConvertLinks(s)| > |s|
    decreases |s|
  {
    if LinkStartsAt(s) {
      LinkRunCoversScheme(s);
      var n := RunLength(s);
      assert |ConvertLinks(s)| == 4 + 2 * n + |ConvertLinks(s[n..])|;
    } else {
      assert s[0..] == s;
      assert s[1..][i - 1..] == s[i..];
      LinkLengthens(s[1..], i - 1);
    }
  }

  /** `convert_links` leaves a text unchanged exactly when no position of it
      starts a match. */
  lemma ConvertLinksIdentity(s: string)
    ensures ConvertLinks(s) == s <==> NoLinkStart(s)
  {
    if NoLinkStart(s) {
      NoLinkIdentity(s);
    } else {
      var i :| 0 <= i < |s| && LinkStartsAt(s[i..]);
      LinkLengthens(s, i);
    }
  }

  /** In particular, a text with neither `http://` nor `https://` in it is left
      unchanged. */
  lemma ConvertLinksWithoutScheme(s: string)
    requires forall i :: 0 <= i < |s| ==> !(Http <= s[i..]) && !(Https <= s[i..])
    ensures ConvertLinks(s) == s
  {
    forall i | 0 <= i < |s|
      ensures !LinkStartsAt(s[i..])
    {
      SchemeLengthIsPrefix(s[i..]);
    }
    NoLinkIdentity(s);
  }

  // ---------------------------------------------------------------------------
  // Whitespace and line feeds.

  /** Every whitespace character of the input reaches the output, in order, and
      the rewrite adds none. */
  lemma {:induction false} ConvertLinksKeepsSpaces(s: string)
    ensures Spaces(ConvertLinks(s)) == Spaces(s)
    decreases |s|
  {
    if s != [] {
      if LinkStartsAt(s) {
        LinkRunCoversScheme(s);
        var n := RunLength(s);
        var u := s[..n];
        ConvertLinksKeepsSpaces(s[n..]);
        SpacesOfNonSpace(u);
        SpacesOfNonSpace(Wrap(u));
        SpacesAppend(Wrap(u), ConvertLinks(s[n..]));
        assert s == u + s[n..];
        SpacesAppend(u, s[n..]);
      } else {
        ConvertLinksKeepsSpaces(s[1..]);
        assert ([s[0]] + ConvertLinks(s[1..]))[1..] == ConvertLinks(s[1..]);
      }
    }
  }

  /** A prefix without line feeds of a doubled text is a prefix of the text. */
  lemma {:induction false} DoubledPrefix(s: string, w: string)
    requires w <= DoubleNewlines(s)
    requires forall i :: 0 <= i < |w| ==> w[i] != '\n'
    ensures w <= s
    decreases |s|
  {
    if s != [] && w != [] {
      var d := DoubleNewlines(s);
      if s[0] != '\n' {
        assert d == [s[0]] + DoubleNewlines(s[1..]);
        assert w[1..] <= DoubleNewlines(s[1..]);
        DoubledPrefix(s[1..], w[1..]);
        assert w == [s[0]] + w[1..];
      }
    }
  }

  /** A match at the start survives doubling line feeds: it holds none. */
  lemma LinkSurvivesDoubling(s: string)
    requires LinkStartsAt(s)
    ensures LinkStartsAt(DoubleNewlines(s))
  {
    LinkRunCoversScheme(s);
    var n := RunLength(s);
    var u, v := s[..n], s[n..];
    LinkShrinks(s, n);
    assert s == u + v;
    DoubleNewlinesAppend(u, v);
    DoubleNewlinesNoNewline(u);
    LinkExtends(u, DoubleNewlines(s));
  }

  /** A match at the start of a doubled text was there before doubling. */
  lemma LinkBeforeDoubling(s: string)
    requires LinkStartsAt(DoubleNewlines(s))
    ensures LinkStartsAt(s)
  {
    var d := DoubleNewlines(s);
    LinkRunCoversScheme(d);
    var u := d[..RunLength(d)];
    LinkShrinks(d, RunLength(d));
    DoubledPrefix(s, u);
    LinkExtends(u, s);
  }

  /** Doubling line feeds neither creates nor destroys a match at the start. */
  lemma LinkStartsAtDoubled(s: string)
    ensures LinkStartsAt(DoubleNewlines(s)) <==> LinkStartsAt(s)
  {
    if LinkStartsAt(s) {
      LinkSurvivesDoubling(s);
    }
    if LinkStartsAt(DoubleNewlines(s)) {
      LinkBeforeDoubling(s);
    }
  }

  /** A match is untouched by doubling line feeds and still ends where it did. */
  lemma DoubledLink(s: string)
    requires LinkStartsAt(s)
    ensures RunLength(s) > SchemeLength(s)
    ensures DoubleNewlines(s) == s[..RunLength(s)] + DoubleNewlines(s[RunLength(s)..])
    ensures RunLength(DoubleNewlines(s)) == RunLength(s)
  {
    LinkRunCoversScheme(s);
    var n := RunLength(s);
    var u := s[..n];
    var d := DoubleNewlines(s);
    assert s == u + s[n..];
    DoubleNewlinesAppend(u, s[n..]);
    DoubleNewlinesNoNewline(u);
    if n < |s| {
      assert s[n..] == [s[n]] + s[n + 1..];
      assert d[n] == (if s[n] == '\n' then '\n' else s[n]);
    }
    RunLengthExact(d, n);
  }

  /** The Markdown link of a URL holds no line feed. */
  lemma WrapNoNewline(u: string)
    requires forall i :: 0 <= i < |u| ==> !IsSpace(u[i])
    ensures DoubleNewlines(Wrap(u)) == Wrap(u)
  {
    var w := Wrap(u);
    forall i | 0 <= i < |w|
      ensures w[i] != '\n'
    {
      if 1 <= i < 1 + |u| {
        assert w[i] == u[i - 1];
      } else if 3 + |u| <= i < 3 + 2 * |u| {
        assert w[i] == u[i - 3 - |u|];
      }
    }
    DoubleNewlinesNoNewline(w);
  }

  /** One step of the rewrite at a match. */
  lemma ConvertLinksAtLink(s: string)
    requires LinkStartsAt(s)
    ensures RunLength(s) > 0
    ensures ConvertLinks(s) == Wrap(s[..RunLength(s)]) + ConvertLinks(s[RunLength(s)..])
  {
    LinkRunCoversScheme(s);
  }

  /** Rewriting the doubled text of a match gives the doubled rewrite. */
  lemma ConvertLinksDoubledStep(s: string)
    requires LinkStartsAt(s)
    requires ConvertLinks(DoubleNewlines(s[RunLength(s)..])) == DoubleNewlines(ConvertLinks(s[RunLength(s)..]))
    ensures ConvertLinks(DoubleNewlines(s)) == DoubleNewlines(ConvertLinks(s))
  {
    DoubledLink(s);
    LinkStartsAtDoubled(s);
    var n := RunLength(s);
    var u := s[..n];
    var t := ConvertLinks(s[n..]);
    var d := DoubleNewlines(s);
    assert d[..n] == u && d[n..] == DoubleNewlines(s[n..]);
    ConvertLinksAtLink(d);
    ConvertLinksAtLink(s);
    calc {
      ConvertLinks(d);
      Wrap(u) + ConvertLinks(DoubleNewlines(s[n..]));
      Wrap(u) + DoubleNewlines(t);
      { WrapNoNewline(u); }
      DoubleNewlines(Wrap(u)) + DoubleNewlines(t);
      { DoubleNewlinesAppend(Wrap(u), t); }
      DoubleNewlines(Wrap(u) + t);
    }
  }

  /** Doubling line feeds before rewriting links, as `json_to_markdown` does,
      gives the same text as doubling them afterwards: URLs never contain a line
      feed and the rewrite adds none. */
  lemma {:induction false} ConvertLinksDoubleNewlines(s: string)
    ensures ConvertLinks(DoubleNewlines(s)) == DoubleNewlines(ConvertLinks(s))
    decreases |s|
  {
    var d := DoubleNewlines(s);
    if s != [] {
      LinkStartsAtDoubled(s);
      if LinkStartsAt(s) {
        LinkRunCoversScheme(s);
        ConvertLinksDoubleNewlines(s[RunLength(s)..]);
        ConvertLinksDoubledStep(s);
      } else if s[0] == '\n' {
        assert d == "\n\n" + DoubleNewlines(s[1..]);
        SpaceStartsNoLink(d[1..]);
        assert d[1..][1..] == DoubleNewlines(s[1..]);
        ConvertLinksDoubleNewlines(s[1..]);
        DoubleNewlinesAppend("\n", ConvertLinks(s[1..]));
      } else {
        assert d == [s[0]] + DoubleNewlines(s[1..]);
        ConvertLinksDoubleNewlines(s[1..]);
        DoubleNewlinesAppend([s[0]], ConvertLinks(s[1..]));
      }
    }
  }

  // ---------------------------------------------------------------------------
  // Text cut at whitespace, and worked examples.

  /** One step of the rewrite at a position that starts no match. */
  lemma ConvertLinksAtChar(s: string)
    requires s != [] && !LinkStartsAt(s)
    ensures ConvertLinks(s) == [s[0]] + ConvertLinks(s[1..])
  {
  }

  /** A character other than `h` in front of a text is copied ahead of the
      text's rewrite. */
  lemma CharStep(c: char, rest: string)
    requires c != 'h'
    ensures ConvertLinks([c] + rest) == [c] + ConvertLinks(rest)
  {
    var s := [c] + rest;
    assert s[0] == c && s[1..] == rest;
    ConvertLinksAtChar(s);
  }

  /** One step of the rewrite at a match, with the URL and the rest named. */
  lemma LinkStep(s: string, u: string, rest: string)
    requires LinkStartsAt(s)
    requires u == s[..RunLength(s)] && rest == s[RunLength(s)..]
    ensures ConvertLinks(s) == Wrap(u) + ConvertLinks(rest)
  {
    LinkRunCoversScheme(s);
  }

  /** Re-association, stated apart so that the proofs using it do not pay for
      sequence extensionality among terms that unfold `ConvertLinks`. */
  lemma AppendAssoc(x: string, y: string, z: string)
    ensures x + (y + z) == (x + y) + z
  {
  }

  /** Cutting `a + b` inside `a`. */
  lemma SliceAppend(a: string, b: string, n: nat)
    requires n <= |a|
    ensures (a + b)[..n] == a[..n] && (a + b)[n..] == a[n..] + b
  {
  }

  /** A match in `a + b` ends inside `a` when `b` starts with whitespace. */
  lemma MatchBeforeSpace(a: string, b: string)
    requires b != [] && IsSpace(b[0])
    requires LinkStartsAt(a + b)
    ensures 0 < RunLength(a + b) <= |a|
    ensures RunLength(a) == RunLength(a + b) && LinkStartsAt(a)
  {
    var s := a + b;
    LinkRunCoversScheme(s);
    var n := RunLength(s);
    assert IsSpace(s[|a|]);
    LinkShrinks(s, n);
    assert s[..n] <= a;
    LinkExtends(s[..n], a);
    assert n < |a| ==> IsSpace(a[n]) by {
      if n < |a| {
        assert a[n] == s[n];
      }
    }
    RunLengthExact(a, n);
  }

  /** The rewrite of `a + b` and of `a` start with the same link when the match
      at the start of `a + b` ends inside `a`. */
  lemma SameFirstLink(a: string, b: string, n: nat)
    requires LinkStartsAt(a + b) && LinkStartsAt(a)
    requires n == RunLength(a) == RunLength(a + b) && n <= |a|
    ensures ConvertLinks(a + b) == Wrap(a[..n]) + ConvertLinks(a[n..] + b)
    ensures ConvertLinks(a) == Wrap(a[..n]) + ConvertLinks(a[n..])
  {
    SliceAppend(a, b, n);
    LinkStep(a + b, a[..n], a[n..] + b);
    LinkStep(a, a[..n], a[n..]);
  }

  /** The step of `ConvertLinksSplitsAtSpace` at a match. */
  lemma SplitsAtSpaceLink(a: string, b: string, n: nat)
    requires LinkStartsAt(a + b) && LinkStartsAt(a)
    requires n == RunLength(a) == RunLength(a + b) && n <= |a|
    requires ConvertLinks(a[n..] + b) == ConvertLinks(a[n..]) + ConvertLinks(b)
    ensures ConvertLinks(a + b) == ConvertLinks(a) + ConvertLinks(b)
  {
    SameFirstLink(a, b, n);
    AppendAssoc(Wrap(a[..n]), ConvertLinks(a[n..]), ConvertLinks(b));
  }

  /** The step of `ConvertLinksSplitsAtSpace` at a copied character. */
  lemma SplitsAtSpaceChar(a: string, b: string)
    requires a != [] && b != [] && IsSpace(b[0])
    requires !LinkStartsAt(a + b)
    ensures !LinkStartsAt(a)
    ensures ConvertLinks(a[1..] + b) == ConvertLinks(a[1..]) + ConvertLinks(b)
            ==> ConvertLinks(a + b) == ConvertLinks(a) + ConvertLinks(b)
  {
    var s := a + b;
    assert !LinkStartsAt(a) by {
      if LinkStartsAt(a) {
        LinkExtends(a, s);
      }
    }
    assert s[0] == a[0];
    assert s[1..] == a[1..] + b;
    ConvertLinksAtChar(s);
    ConvertLinksAtChar(a);
  }

  /** A text cut just before a whitespace character is rewritten piece by
      piece: no match runs across whitespace. */
  lemma {:induction false} ConvertLinksSplitsAtSpace(a: string, b: string)
    requires b != [] && IsSpace(b[0])
    ensures ConvertLinks(a + b) == ConvertLinks(a) + ConvertLinks(b)
    decreases |a|
  {
    if a == [] {
      assert a + b == b;
    } else if LinkStartsAt(a + b) {
      MatchBeforeSpace(a, b);
      var n := RunLength(a);
      ConvertLinksSplitsAtSpace(a[n..], b);
      SplitsAtSpaceLink(a, b, n);
    } else {
      SplitsAtSpaceChar(a, b);
      ConvertLinksSplitsAtSpace(a[1..], b);
    }
  }

  /** Text without the letter `h` in front of anything is copied ahead of the
      rewrite of what follows: no match starts inside it, and the scan resumes
      unchanged after it. */
  lemma {:induction false} ConvertLinksCopiesPrefix(before: string, rest: string)
    requires forall i :: 0 <= i < |before| ==> before[i] != 'h'
    ensures ConvertLinks(before + rest) == before + ConvertLinks(rest)
    decreases |before|
  {
    if before == [] {
      assert before + rest == rest;
    } else {
      var c, tail := before[0], before[1..];
      assert before + rest == [c] + (tail + rest);
      CharStep(c, tail + rest);
      assert forall i :: 0 <= i < |tail| ==> tail[i] == before[i + 1];
      ConvertLinksCopiesPrefix(tail, rest);
      assert before == [c] + tail;
    }
  }

  /** A text without the letter `h` has no scheme in it. */
  lemma ConvertLinksWithoutH(s: string)
    requires forall i :: 0 <= i < |s| ==> s[i] != 'h'
    ensures ConvertLinks(s) == s
  {
    ConvertLinksCopiesPrefix(s, []);
    assert s + [] == s;
  }

  /** A whitespace-free text that starts a match is one URL. */
  lemma ConvertLinksWholeUrl(u: string)
    requires IsUrl(u)
    ensures ConvertLinks(u) == Wrap(u)
  {
    RunLengthExact(u, |u|);
    LinkStep(u, u[..|u|], u[|u|..]);
    assert u[..|u|] == u;
    assert u[|u|..] == [];
  }

  /** A URL followed by whitespace-led text without the letter `h` is wrapped
      and the text copied. */
  lemma UrlBefore(url: string, after: string)
    requires forall i :: 0 <= i < |after| ==> after[i] != 'h'
    requires IsUrl(url)
    requires after == [] || IsSpace(after[0])
    ensures ConvertLinks(url + after) == Wrap(url) + after
  {
    ConvertLinksWholeUrl(url);
    if after == [] {
      assert url + after == url;
    } else {
      ConvertLinksSplitsAtSpace(url, after);
      ConvertLinksWithoutH(after);
    }
  }

  /** Around a URL, text without the letter `h` is copied and the URL is
      wrapped; the URL ends at the first whitespace after it, and nothing
      anchors it to a word start. */
  lemma ConvertLinksAroundUrl(before: string, url: string, after: string)
    requires forall i :: 0 <= i < |before| ==> before[i] != 'h'
    requires forall i :: 0 <= i < |after| ==> after[i] != 'h'
    requires IsUrl(url)
    requires after == [] || IsSpace(after[0])
    ensures ConvertLinks(before + url + after) == before + Wrap(url) + after
  {
    var rest := url + after;
    assert before + url + after == before + rest;
    ConvertLinksCopiesPrefix(before, rest);
    UrlBefore(url, after);
    assert before + (Wrap(url) + after) == before + Wrap(url) + after;
  }
}
