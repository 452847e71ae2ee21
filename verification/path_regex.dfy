/** The two anchored regular expressions that recognise scatter-point markers in an SVG path
    `d` attribute. Each is a fixed sentence of the path-data grammar of section 8.3 of SVG 1.1:
    literal text alternating with capture groups `([\d.]+)`. A template is written here as a
    list of pieces; `Match` is the anchored matcher and `Render` its inverse. */
module PathRegex {
  import opened Results

  /** A character of the class `[\d.]`: an ASCII digit (`\d` without the `u` flag) or a dot. */
  predicate IsTokenChar(c: char) {
    '0' <= c <= '9' || c == '.'
  }

  /** A string the group `([\d.]+)` can capture: one or more digits and dots. */
  predicate IsToken(t: string) {
    |t| > 0 && forall i :: 0 <= i < |t| ==> IsTokenChar(t[i])
  }

  predicate AllTokens(caps: seq<string>) {
    forall i :: 0 <= i < |caps| ==> IsToken(caps[i])
  }

  /** One piece of a template: literal text, or a capture group `([\d.]+)`. */
  datatype Piece = Lit(text: string) | Capture

  /** A path command with one point: `<name>([\d.]+) ([\d.]+)`. */
  function Command(name: string): seq<Piece> {
    [Lit(name), Capture, Lit(" "), Capture]
  }

  /** ` Z$`: close the path, then the end of the string. */
  const Close: seq<Piece> := [Lit(" Z")]

  /** The move-to command both templates start with: `^M ([\d.]+) ([\d.]+)`. */
  const StartPoint: seq<Piece> := Command("M ")

  /** The rest of `dReg`: one arc of radius 3 to a point, then close the path. */
  const ArcRest: seq<Piece> := Command(" A 3 3 0 1 1 ") + Close

  /** The rest of `qReg`: three line-to commands, then close the path. */
  const QuadRest: seq<Piece> := Command(" L ") + Command(" L ") + Command(" L ") + Close

  /** `dReg`: `^M ([\d.]+) ([\d.]+) A 3 3 0 1 1 ([\d.]+) ([\d.]+) Z$` */
  const ArcTemplate: seq<Piece> := StartPoint + ArcRest

  /** `qReg`: `^M (..) (..) L (..) (..) L (..) (..) L (..) (..) Z$`, each group `([\d.]+)`. */
  const QuadTemplate: seq<Piece> := StartPoint + QuadRest

  /** The number of capture groups in a template. */
  function Captures(p: seq<Piece>): nat {
    if p == [] then 0 else (if p[0].Capture? then 1 else 0) + Captures(p[1..])
  }

  /** The one string a template produces from the given group contents. */
  function Render(p: seq<Piece>, caps: seq<string>): string
    requires |caps| == Captures(p)
  {
    if p == [] then ""
    else match p[0]
      case Lit(l) => l + Render(p[1..], caps)
      case Capture => caps[0] + Render(p[1..], caps[1..])
  }

  /** The length of the longest prefix of s that `[\d.]*` covers (the greedy run). */
  function RunLength(s: string): (n: nat)
    ensures n <= |s|
    ensures forall i :: 0 <= i < n ==> IsTokenChar(s[i])
    ensures n < |s| ==> !IsTokenChar(s[n])
  {
    if s == [] || !IsTokenChar(s[0]) then 0 else 1 + RunLength(s[1..])
  }

  /** Matches p against a prefix of s, each group taking its greedy run; yields the group
      contents and the unmatched rest of s. */
  function MatchPrefix(p: seq<Piece>, s: string): (r: Option<(seq<string>, string)>)
    ensures r.Some? ==>
      |r.value.0| == Captures(p) && AllTokens(r.value.0) && Render(p, r.value.0) + r.value.1 == s
  {
    if p == [] then Some(([], s))
    else match p[0]
      case Lit(l) =>
        if l <= s then
          var r := MatchPrefix(p[1..], s[|l|..]);
          if r.Some? then LitStep(p, s, r.value.0, r.value.1); r else r
        else None
      case Capture =>
        var n := RunLength(s);
        if n == 0 then None
        else match MatchPrefix(p[1..], s[n..])
          case None => None
          case Some((caps, rest)) =>
            CaptureStep(p, s, n, caps, rest);
            Some(([s[..n]] + caps, rest))
  }

  /** A literal at the head of p that prefixes s, followed by a sound match of the rest. */
  lemma LitStep(p: seq<Piece>, s: string, caps: seq<string>, rest: string)
    requires p != [] && p[0].Lit? && p[0].text <= s
    requires |caps| == Captures(p[1..]) && AllTokens(caps)
    requires Render(p[1..], caps) + rest == s[|p[0].text|..]
    ensures |caps| == Captures(p) && Render(p, caps) + rest == s
  {
    var l := p[0].text;
    assert s == l + s[|l|..];
    calc {
      Render(p, caps) + rest;
      (l + Render(p[1..], caps)) + rest;
      == { ConcatAssoc(l, Render(p[1..], caps), rest); }
      l + (Render(p[1..], caps) + rest);
    }
  }

  /** A group at the head of p that takes a non-empty run of token characters, followed by a
      sound match of the rest. */
  lemma CaptureStep(p: seq<Piece>, s: string, n: nat, caps: seq<string>, rest: string)
    requires p != [] && p[0].Capture? && 0 < n <= |s|
    requires forall i :: 0 <= i < n ==> IsTokenChar(s[i])
    requires |caps| == Captures(p[1..]) && AllTokens(caps)
    requires Render(p[1..], caps) + rest == s[n..]
    ensures |[s[..n]] + caps| == Captures(p) && AllTokens([s[..n]] + caps)
    ensures Render(p, [s[..n]] + caps) + rest == s
  {
    var t := s[..n];
    var all := [t] + caps;
    assert all[0] == t && all[1..] == caps;
    assert IsToken(t) by {
      assert forall i :: 0 <= i < n ==> t[i] == s[i];
    }
    assert AllTokens(all) by {
      assert forall i :: 1 <= i < |all| ==> all[i] == caps[i - 1];
    }
    assert Render(p, all) + rest == t + (Render(p[1..], caps) + rest);
    assert s == t + s[n..];
  }

  /** `p.exec(s)` for a template anchored with `^` and `$`: the group contents, or no match.
      Every result is sound: s is exactly the template with token-shaped groups. */
  function Match(p: seq<Piece>, s: string): (r: Option<seq<string>>)
    ensures r.Some? ==> |r.value| == Captures(p) && AllTokens(r.value) && Render(p, r.value) == s
  {
    match MatchPrefix(p, s)
    case None => None
    case Some((caps, rest)) => if rest == "" then Some(caps) else None
  }

  /** Every group of p is followed by a literal that starts with a non-token character, or,
      when the group ends p, by u, which is empty or starts with a non-token character. Under
      this condition a greedy group can never take a shorter run, so greedy matching finds every
      match a backtracking regex engine finds. */
  predicate Delimited(p: seq<Piece>, u: string) {
    forall i :: 0 <= i < |p| ==> DelimitedAt(p, i, u)
  }

  /** The piece at index i is a literal, or a group followed by a delimiter. */
  predicate DelimitedAt(p: seq<Piece>, i: nat, u: string)
    requires i < |p|
  {
    p[i].Capture? ==>
      if i + 1 < |p| then p[i + 1].Lit? && p[i + 1].text != [] && !IsTokenChar(p[i + 1].text[0])
      else u == [] || !IsTokenChar(u[0])
  }

  /** A token followed by a delimiter is exactly one greedy run. */
  lemma RunLengthOfToken(t: string, rest: string)
    requires IsToken(t)
    requires rest == [] || !IsTokenChar(rest[0])
    ensures RunLength(t + rest) == |t|
  {
    var s := t + rest;
    assert forall i :: 0 <= i < |t| ==> s[i] == t[i];
    if rest != [] {
      assert s[|t|] == rest[0];
    }
  }

  lemma DelimitedTail(p: seq<Piece>, u: string)
    requires p != [] && Delimited(p, u)
    ensures Delimited(p[1..], u)
  {
    forall i | 0 <= i < |p[1..]|
      ensures DelimitedAt(p[1..], i, u)
    {
      assert DelimitedAt(p, i + 1, u);
    }
  }

  /** Completeness of the prefix matcher: a rendering of p, followed by anything p's last group
      cannot extend into, is matched with exactly the groups it was rendered from. */
  lemma {:induction false} MatchPrefixRender(p: seq<Piece>, caps: seq<string>, u: string)
    requires |caps| == Captures(p) && AllTokens(caps) && Delimited(p, u)
    ensures MatchPrefix(p, Render(p, caps) + u) == Some((caps, u))
  {
    if p != [] {
      DelimitedTail(p, u);
      var s := Render(p, caps) + u;
      match p[0]
      case Lit(l) =>
        var rest := Render(p[1..], caps) + u;
        assert s == l + rest;
        assert l <= s;
        assert s[|l|..] == rest;
        MatchPrefixRender(p[1..], caps, u);
      case Capture =>
        var t := caps[0];
        var rest := Render(p[1..], caps[1..]) + u;
        assert s == t + rest;
        assert AllTokens(caps[1..]) by {
          forall i | 0 <= i < |caps[1..]| ensures IsToken(caps[1..][i]) {
            assert caps[1..][i] == caps[i + 1];
          }
        }
        assert IsToken(t) by { assert caps[0] == t; }
        assert DelimitedAt(p, 0, u);
        if 1 < |p| {
          var l := p[1].text;
          assert Render(p[1..], caps[1..]) == l + Render(p[2..], caps[1..]) by {
            assert p[1..][0] == p[1];
            assert p[1..][1..] == p[2..];
          }
          assert rest[0] == l[0];
        } else {
          assert p[1..] == [];
          assert rest == u;
        }
        RunLengthOfToken(t, rest);
        assert s[..|t|] == t;
        assert s[|t|..] == rest;
        MatchPrefixRender(p[1..], caps[1..], u);
        assert [t] + caps[1..] == caps;
    } else {
      assert Render(p, caps) + u == u;
      assert caps == [];
    }
  }

  /** Completeness of the anchored matcher: every rendering of a delimited template matches,
      with exactly the groups it was rendered from. */
  lemma MatchRender(p: seq<Piece>, caps: seq<string>)
    requires |caps| == Captures(p) && AllTokens(caps) && Delimited(p, "")
    ensures Match(p, Render(p, caps)) == Some(caps)
  {
    MatchPrefixRender(p, caps, "");
    assert Render(p, caps) + "" == Render(p, caps);
  }

  /** What the anchored regex recognises: s matches a delimited template, with groups caps,
      exactly when s is the template with token-shaped caps substituted for its groups. */
  lemma MatchIff(p: seq<Piece>, s: string, caps: seq<string>)
    requires Delimited(p, "")
    ensures Match(p, s) == Some(caps) <==>
      |caps| == Captures(p) && AllTokens(caps) && Render(p, caps) == s
  {
    if |caps| == Captures(p) && AllTokens(caps) && Render(p, caps) == s {
      MatchRender(p, caps);
    }
  }

  lemma {:induction false} CapturesAppend(a: seq<Piece>, b: seq<Piece>)
    ensures Captures(a + b) == Captures(a) + Captures(b)
  {
    if a != [] {
      assert (a + b)[0] == a[0];
      assert (a + b)[1..] == a[1..] + b;
      CapturesAppend(a[1..], b);
    } else {
      assert a + b == b;
    }
  }

  lemma ConcatAssoc<T>(x: seq<T>, y: seq<T>, z: seq<T>)
    ensures x + (y + z) == (x + y) + z
  {
  }

  /** Rendering distributes over the concatenation of templates. */
  lemma {:induction false} RenderAppend(a: seq<Piece>, b: seq<Piece>, ca: seq<string>, cb: seq<string>)
    requires |ca| == Captures(a) && |cb| == Captures(b)
    ensures |ca + cb| == Captures(a + b)
    ensures Render(a + b, ca + cb) == Render(a, ca) + Render(b, cb)
  {
    CapturesAppend(a, b);
    if a == [] {
      assert a + b == b;
      assert ca + cb == cb;
    } else {
      assert (a + b)[0] == a[0];
      assert (a + b)[1..] == a[1..] + b;
      CapturesAppend(a[1..], b);
      match a[0]
      case Lit(l) =>
        calc {
          Render(a + b, ca + cb);
          l + Render(a[1..] + b, ca + cb);
          == { RenderAppend(a[1..], b, ca, cb); }
          l + (Render(a[1..], ca) + Render(b, cb));
          == { ConcatAssoc(l, Render(a[1..], ca), Render(b, cb)); }
          Render(a, ca) + Render(b, cb);
        }
      case Capture =>
        assert (ca + cb)[0] == ca[0];
        assert (ca + cb)[1..] == ca[1..] + cb;
        calc {
          Render(a + b, ca + cb);
          ca[0] + Render(a[1..] + b, ca[1..] + cb);
          == { RenderAppend(a[1..], b, ca[1..], cb); }
          ca[0] + (Render(a[1..], ca[1..]) + Render(b, cb));
          == { ConcatAssoc(ca[0], Render(a[1..], ca[1..]), Render(b, cb)); }
          Render(a, ca) + Render(b, cb);
        }
    }
  }

  /** Matching a concatenation of templates is matching the first, then the second on what
      the first left over (the greedy matcher never backtracks). */
  lemma {:induction false} MatchPrefixAppend(a: seq<Piece>, b: seq<Piece>, s: string)
    ensures MatchPrefix(a + b, s) ==
      match MatchPrefix(a, s)
      case None => None
      case Some((ca, ra)) =>
        match MatchPrefix(b, ra)
        case None => None
        case Some((cb, rb)) => Some((ca + cb, rb))
  {
    if a == [] {
      assert a + b == b;
      match MatchPrefix(b, s)
      case None =>
      case Some((cb, rb)) => assert [] + cb == cb;
    } else {
      assert (a + b)[0] == a[0];
      assert (a + b)[1..] == a[1..] + b;
      match a[0]
      case Lit(l) =>
        if l <= s {
          MatchPrefixAppend(a[1..], b, s[|l|..]);
        }
      case Capture =>
        var n := RunLength(s);
        if n != 0 {
          MatchPrefixAppend(a[1..], b, s[n..]);
          match MatchPrefix(a[1..], s[n..])
          case None =>
          case Some((ca, ra)) =>
            match MatchPrefix(b, ra)
            case None =>
            case Some((cb, rb)) =>
              assert [s[..n]] + (ca + cb) == ([s[..n]] + ca) + cb;
        }
    }
  }

  /** The text of one command with its point: `<name>x y`. */
  function Segment(name: string, x: string, y: string): string {
    name + x + " " + y
  }

  lemma CommandCaptures(name: string)
    ensures Captures(Command(name)) == 2
  {
    var p := Command(name);
    var p1, p2, p3 := p[1..], p[1..][1..], p[1..][1..][1..];
    assert p1 == [Capture, Lit(" "), Capture];
    assert p2 == [Lit(" "), Capture];
    assert p3 == [Capture];
    assert p3[1..] == [];
    assert Captures(p3) == 1;
    assert Captures(p2) == 1;
    assert Captures(p1) == 2;
  }

  /** The string one command produces. */
  lemma RenderCommand(name: string, a: string, b: string)
    ensures Captures(Command(name)) == 2
    ensures Render(Command(name), [a, b]) == Segment(name, a, b)
  {
    CommandCaptures(name);
    var p := Command(name);
    var p1, p2, p3 := p[1..], p[1..][1..], p[1..][1..][1..];
    assert p1 == [Capture, Lit(" "), Capture];
    assert p2 == [Lit(" "), Capture];
    assert p3 == [Capture];
    assert p3[1..] == [];
    assert [a, b][1..] == [b];
    assert [b][1..] == [];
    assert Render(p3, [b]) == b;
    assert Render(p2, [b]) == " " + b;
    assert Render(p1, [a, b]) == a + " " + b;
  }

  lemma RenderClose()
    ensures Captures(Close) == 0 && Render(Close, []) == " Z"
  {
    assert Close[1..] == [];
  }

  /** The strings `dReg` accepts, written out: `M x y A 3 3 0 1 1 a b Z`. */
  function ArcPath(c: seq<string>): string
    requires |c| == 4
  {
    Segment("M ", c[0], c[1]) + (Segment(" A 3 3 0 1 1 ", c[2], c[3]) + " Z")
  }

  /** The strings `qReg` accepts, written out: `M x1 y1 L x2 y2 L x3 y3 L x4 y4 Z`. */
  function QuadPath(c: seq<string>): string
    requires |c| == 8
  {
    Segment("M ", c[0], c[1]) +
    (Segment(" L ", c[2], c[3]) + Segment(" L ", c[4], c[5]) + Segment(" L ", c[6], c[7]) + " Z")
  }

  lemma RenderArcRest(c: seq<string>)
    requires |c| == 2
    ensures Captures(ArcRest) == 2
    ensures Render(ArcRest, c) == Segment(" A 3 3 0 1 1 ", c[0], c[1]) + " Z"
  {
    RenderCommand(" A 3 3 0 1 1 ", c[0], c[1]);
    RenderClose();
    assert [c[0], c[1]] == c;
    RenderAppend(Command(" A 3 3 0 1 1 "), Close, c, []);
    assert c + [] == c;
  }

  lemma RenderQuadRest(c: seq<string>)
    requires |c| == 6
    ensures Captures(QuadRest) == 6
    ensures Render(QuadRest, c) ==
      Segment(" L ", c[0], c[1]) + Segment(" L ", c[2], c[3]) + Segment(" L ", c[4], c[5]) + " Z"
  {
    var l := Command(" L ");
    var c01, c23, c45 := [c[0], c[1]], [c[2], c[3]], [c[4], c[5]];
    RenderCommand(" L ", c[0], c[1]);
    RenderCommand(" L ", c[2], c[3]);
    RenderCommand(" L ", c[4], c[5]);
    RenderClose();
    CapturesAppend(l, l);
    CapturesAppend(l + l, l);
    CapturesAppend(l + l + l, Close);
    assert c01 + c23 + c45 + [] == c;
    calc {
      Render(QuadRest, c);
      Render(l + l + l + Close, c01 + c23 + c45 + []);
      == { RenderAppend(l + l + l, Close, c01 + c23 + c45, []); }
      Render(l + l + l, c01 + c23 + c45) + " Z";
      == { RenderAppend(l + l, l, c01 + c23, c45); }
      Render(l + l, c01 + c23) + Segment(" L ", c[4], c[5]) + " Z";
      == { RenderAppend(l, l, c01, c23); }
      Segment(" L ", c[0], c[1]) + Segment(" L ", c[2], c[3]) + Segment(" L ", c[4], c[5]) + " Z";
    }
  }

  /** The template `dReg` spells out exactly the strings ArcPath describes. */
  lemma RenderArc(c: seq<string>)
    requires |c| == 4
    ensures Captures(ArcTemplate) == 4 && Render(ArcTemplate, c) == ArcPath(c)
  {
    RenderCommand("M ", c[0], c[1]);
    RenderArcRest(c[2..]);
    assert c == [c[0], c[1]] + c[2..];
    RenderAppend(StartPoint, ArcRest, [c[0], c[1]], c[2..]);
  }

  /** The template `qReg` spells out exactly the strings QuadPath describes. */
  lemma RenderQuad(c: seq<string>)
    requires |c| == 8
    ensures Captures(QuadTemplate) == 8 && Render(QuadTemplate, c) == QuadPath(c)
  {
    RenderCommand("M ", c[0], c[1]);
    RenderQuadRest(c[2..]);
    assert c == [c[0], c[1]] + c[2..];
    RenderAppend(StartPoint, QuadRest, [c[0], c[1]], c[2..]);
  }

  lemma ArcDelimited()
    ensures Delimited(ArcTemplate, "")
  {
    forall i | 0 <= i < |ArcTemplate| ensures DelimitedAt(ArcTemplate, i, "") {}
  }

  lemma QuadDelimited()
    ensures Delimited(QuadTemplate, "")
  {
    forall i | 0 <= i < |QuadTemplate| ensures DelimitedAt(QuadTemplate, i, "") {}
  }

  /** `dReg` has four groups and `qReg` eight. */
  lemma CaptureCounts()
    ensures Captures(ArcTemplate) == 4 && Captures(QuadTemplate) == 8
  {
    var l := Command(" L ");
    CommandCaptures("M ");
    CommandCaptures(" A 3 3 0 1 1 ");
    CommandCaptures(" L ");
    RenderClose();
    CapturesAppend(Command(" A 3 3 0 1 1 "), Close);
    CapturesAppend(StartPoint, ArcRest);
    CapturesAppend(l, l);
    CapturesAppend(l + l, l);
    CapturesAppend(l + l + l, Close);
    CapturesAppend(StartPoint, QuadRest);
  }

  /** `dReg.exec(s)` yields the groups c exactly when s is `M c0 c1 A 3 3 0 1 1 c2 c3 Z`
      with every group a non-empty run of digits and dots: anchored at both ends, single
      spaces, nothing else. */
  lemma ArcMatchIff(s: string, c: seq<string>)
    ensures Match(ArcTemplate, s) == Some(c) <==> |c| == 4 && AllTokens(c) && s == ArcPath(c)
  {
    CaptureCounts();
    ArcDelimited();
    MatchIff(ArcTemplate, s, c);
    if |c| == 4 {
      RenderArc(c);
    }
  }

  /** `qReg.exec(s)` yields the groups c exactly when s is
      `M c0 c1 L c2 c3 L c4 c5 L c6 c7 Z` with every group a non-empty run of digits and dots. */
  lemma QuadMatchIff(s: string, c: seq<string>)
    ensures Match(QuadTemplate, s) == Some(c) <==> |c| == 8 && AllTokens(c) && s == QuadPath(c)
  {
    CaptureCounts();
    QuadDelimited();
    MatchIff(QuadTemplate, s, c);
    if |c| == 8 {
      RenderQuad(c);
    }
  }

  /** After the shared move-to command, matching continues on what follows its point. */
  lemma MatchAfterStart(rest: seq<Piece>, a: string, b: string, u: string)
    requires IsToken(a) && IsToken(b) && u != [] && u[0] == ' '
    ensures MatchPrefix(StartPoint + rest, Segment("M ", a, b) + u) ==
      match MatchPrefix(rest, u)
      case None => None
      case Some((c, r)) => Some(([a, b] + c, r))
  {
    RenderCommand("M ", a, b);
    assert Delimited(StartPoint, u) by {
      forall i | 0 <= i < |StartPoint| ensures DelimitedAt(StartPoint, i, u) {}
    }
    MatchPrefixRender(StartPoint, [a, b], u);
    MatchPrefixAppend(StartPoint, rest, Segment("M ", a, b) + u);
  }

  /** No quadrilateral path matches `dReg`: after the first point `qReg` reads ` L ` where
      `dReg` demands ` A `. */
  lemma ArcRejectsQuadPath(q: seq<string>)
    requires |q| == 8 && AllTokens(q)
    ensures Match(ArcTemplate, QuadPath(q)).None?
  {
    var u := Segment(" L ", q[2], q[3]) + Segment(" L ", q[4], q[5]) + Segment(" L ", q[6], q[7]) + " Z";
    assert QuadPath(q) == Segment("M ", q[0], q[1]) + u;
    assert u[0] == ' ' && u[1] == 'L';
    assert IsToken(q[0]) && IsToken(q[1]);
    MatchAfterStart(ArcRest, q[0], q[1], u);
    assert ArcRest[0] == Lit(" A 3 3 0 1 1 ");
    assert !(" A 3 3 0 1 1 " <= u) by {
      assert " A 3 3 0 1 1 "[1] == 'A';
    }
    assert MatchPrefix(ArcRest, u).None?;
  }
}
