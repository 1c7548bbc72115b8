/**
  When unescape undoes escape (libkopete/kopetemessage.cpp:301-372). Escaped text is read as a list
  of tokens; every stage of unescape rewrites the tokens one by one, and what is left can be compared
  with the text it came from.
 */
module TextRoundTrip {
  import opened MessageText

  /** A space that escape does not spell out: white space other than newline and tab. */
  predicate IsGap(c: char) {
    IsSpace(c) && c != '\n' && c != '\t'
  }

  /** The number of gap characters a text starts with. */
  function Gap(t: string): (k: nat)
    ensures k <= |t| && (forall i | 0 <= i < k :: IsGap(t[i])) && (k < |t| ==> !IsGap(t[k]))
  {
    if t != [] && IsGap(t[0]) then 1 + Gap(t[1..]) else 0
  }

  predicate Contains(t: string, p: string) {
    exists i | 0 <= i <= |t| :: p <= t[i..]
  }

  /** Every run of gap characters is made of plain spaces, is one or an even number long, and is not at the end. */
  predicate GapsKept(t: string)
    decreases |t|
  {
    if t == [] then true
    else
      var k := Gap(t);
      if k == 0 then GapsKept(t[1..])
      else
        && k < |t| && (k == 1 || k % 2 == 0)
        && AllPlain(t, k)
        && GapsKept(t[k..])
  }

  predicate AllPlain(t: string, k: nat)
    requires k <= |t|
  {
    forall i | 0 <= i < k :: t[i] == ' '
  }

  /** What a text must satisfy to come back unchanged; a caller can check it beforehand. */
  predicate RoundTrips(t: string) {
    GapsKept(t) && Gap(t) != 1 && !Contains(t, "&#160;")
  }

  // ---- escape, in one pass ----

  predicate Lone(t: string) {
    t != [] && IsGap(t[0]) && (|t| == 1 || !IsGap(t[1]))
  }

  function Spelled(c: char): string {
    if c == '\n' then BR else if c == '\t' then TAB else EscapeChar(c)
  }

  /** The effect of escape, from left to right. */
  function Html(t: string): string
    decreases |t|
  {
    if t == [] then []
    else if !IsGap(t[0]) then Spelled(t[0]) + Html(t[1..])
    else if Lone(t) then [t[0]] + Html(t[1..])
    else "&nbsp; " + Html(t[2..])
  }

  /** A replacement passes over a piece in which no occurrence starts. */
  lemma {:induction false} ReplaceSkips(p: string, r: string, before: string, after: string)
    requires before != []
    requires forall i | 0 <= i < |p| :: p[i] != before[0]
    ensures Replace(p + r, before, after) == p + Replace(r, before, after)
    decreases |p|
  {
    if p == [] {
      assert p + r == r;
    } else {
      assert (p + r)[1..] == p[1..] + r;
      ReplaceSkips(p[1..], r, before, after);
      assert p == [p[0]] + p[1..];
    }
  }

  lemma ReplaceHit(r: string, before: string, after: string)
    requires before != []
    ensures Replace(before + r, before, after) == after + Replace(r, before, after)
  {
    assert (before + r)[|before|..] == r;
  }

  function Broken(c: char): string {
    if c == '\n' then BR else EscapeChar(c)
  }

  function SpellAll(s: string): string {
    if s == [] then [] else Spelled(s[0]) + SpellAll(s[1..])
  }

  function BreakAll(s: string): string {
    if s == [] then [] else Broken(s[0]) + BreakAll(s[1..])
  }

  lemma {:induction false} EscapeBreaks(t: string)
    ensures Replace(ToHtmlEscaped(t), "\n", BR) == BreakAll(t)
  {
    if t != [] {
      EscapeBreaks(t[1..]);
      if t[0] == '\n' {
        ReplaceHit(ToHtmlEscaped(t[1..]), "\n", BR);
      } else {
        ReplaceSkips(EscapeChar(t[0]), ToHtmlEscaped(t[1..]), "\n", BR);
      }
    }
  }

  lemma BrokenNoTab(c: char)
    requires c != '\t'
    ensures forall i | 0 <= i < |Broken(c)| :: Broken(c)[i] != '\t'
    ensures Broken(c) == Spelled(c)
  {
  }

  lemma {:induction false} EscapeTabs(t: string)
    ensures Replace(BreakAll(t), "\t", TAB) == SpellAll(t)
  {
    if t != [] {
      EscapeTabs(t[1..]);
      if t[0] == '\t' {
        ReplaceHit(BreakAll(t[1..]), "\t", TAB);
      } else {
        BrokenNoTab(t[0]);
        ReplaceSkips(Broken(t[0]), BreakAll(t[1..]), "\t", TAB);
      }
    }
  }

  lemma {:induction false} PairsSkip(p: string, r: string)
    requires p != [] ==> !IsSpace(p[|p| - 1])
    requires forall i | 0 <= i < |p| - 1 :: !(IsSpace(p[i]) && IsSpace(p[i + 1]))
    ensures ReplacePairs(p + r) == p + ReplacePairs(r)
    decreases |p|
  {
    if p == [] {
      assert p + r == r;
    } else {
      assert (p + r)[1..] == p[1..] + r && (p + r)[0] == p[0];
      assert |p| > 1 ==> (p + r)[1] == p[1];
      PairsHead(p + r);
      PairsSkip(p[1..], r);
      hide ReplacePairs, IsSpace;
      assert p == [p[0]] + p[1..];
    }
  }

  lemma PairsHead(s: string)
    requires s != [] && !(|s| >= 2 && IsSpace(s[0]) && IsSpace(s[1]))
    ensures ReplacePairs(s) == [s[0]] + ReplacePairs(s[1..])
  {
  }

  /** escape is the one-pass translation. */
  lemma EscapeIsHtml(t: string)
    ensures Escape(t) == Html(t)
  {
    EscapeBreaks(t);
    EscapeTabs(t);
    PairsSpelled(t);
  }

  /**
    What escape writes, character by character: markup characters as entities, a newline as a break, a
    tab as four hard spaces, any other two white-space characters as a hard and a plain space.
   */
  lemma EscapeSpells(c: char, t: string)
    ensures !IsSpace(c) || c == '\n' || c == '\t' ==>
              Escape([c] + t) == (match c
                                  case '<' => "&lt;"
                                  case '>' => "&gt;"
                                  case '&' => "&amp;"
                                  case '"' => "&quot;"
                                  case '\n' => "<br />"
                                  case '\t' => "&nbsp;&nbsp;&nbsp;&nbsp;"
                                  case _ => [c]) + Escape(t)
    ensures forall d | IsGap(c) && IsGap(d) :: Escape([c, d] + t) == "&nbsp; " + Escape(t)
    ensures IsGap(c) && (t == [] || !IsGap(t[0])) ==> Escape([c] + t) == [c] + Escape(t)
  {
    EscapeIsHtml([c] + t);
    EscapeIsHtml(t);
    assert ([c] + t)[1..] == t;
    hide Escape;
    forall d | IsGap(c) && IsGap(d) ensures Escape([c, d] + t) == "&nbsp; " + Escape(t) {
      EscapeIsHtml([c, d] + t);
      assert ([c, d] + t)[2..] == t;
    }
  }

  lemma {:induction false} PairsSpelled(t: string)
    ensures ReplacePairs(SpellAll(t)) == Html(t)
    decreases |t|
  {
    if t == [] {
    } else if !IsGap(t[0]) {
      PairsSkip(Spelled(t[0]), SpellAll(t[1..]));
      PairsSpelled(t[1..]);
    } else {
      assert Spelled(t[0]) == [t[0]];
      assert SpellAll(t)[1..] == SpellAll(t[1..]);
      if Lone(t) {
        SpellStart(t[1..]);
        PairsSpelled(t[1..]);
      } else {
        SpellGap(t);
        PairsSpelled(t[2..]);
      }
    }
  }

  lemma SpellStart(t: string)
    ensures t != [] ==> SpellAll(t) != [] && (IsSpace(SpellAll(t)[0]) ==> IsGap(t[0]))
  {
  }

  lemma SpellGap(t: string)
    requires |t| >= 2 && IsGap(t[0]) && IsGap(t[1])
    ensures SpellAll(t) == [t[0], t[1]] + SpellAll(t[2..])
  {
    SpelledGap(t[0]);
    SpelledGap(t[1]);
    hide Spelled, IsGap;
    assert t[1..][1..] == t[2..];
    assert SpellAll(t) == [t[0]] + SpellAll(t[1..]);
    assert SpellAll(t[1..]) == [t[1]] + SpellAll(t[1..][1..]);
  }

  lemma SpelledGap(c: char)
    requires IsGap(c)
    ensures Spelled(c) == [c]
  {
  }

  // ---- unescape, token by token ----

  /** What survives simplification: a character, a break, a tab, a space, a non-breaking space. */
  datatype Token = Ch(c: char) | Newline | Tab | Blank | Nbsp

  function TokenOf(c: char): Token {
    if c == '\n' then Newline else if c == '\t' then Tab else Ch(c)
  }

  /** The tokens of simplified escaped text, for a text that continues some other text. */
  function Tokens(t: string): seq<Token>
    decreases |t|
  {
    if t == [] then []
    else if !IsGap(t[0]) then [TokenOf(t[0])] + Tokens(t[1..])
    else if Lone(t) then
      if |t| == 1 then [] else [Blank] + Tokens(t[1..])
    else if |t| == 2 || (|t| == 3 && Lone(t[2..])) then [Nbsp]
    else [Nbsp, Blank] + Tokens(if Lone(t[2..]) then t[3..] else t[2..])
  }

  /** How a token reads after the first k stages of unescape. */
  function Piece(tok: Token, k: nat): string {
    match tok
    case Newline => if k >= 1 then "\n" else BR
    case Tab => if k >= 2 then "\t" else TAB
    case Blank => " "
    case Nbsp => if k >= 6 then " " else NBSP
    case Ch(c) =>
      if c == '>' then if k >= 3 then ">" else "&gt;"
      else if c == '<' then if k >= 4 then "<" else "&lt;"
      else if c == '"' then if k >= 5 then "\"" else "&quot;"
      else if c == '&' then if k >= 7 then "&" else "&amp;"
      else [c]
  }

  function Render(toks: seq<Token>, k: nat): string {
    if toks == [] then [] else Piece(toks[0], k) + Render(toks[1..], k)
  }

  /** No two non-breaking spaces in a row, and no character token that is white space. */
  ghost predicate WellToked(toks: seq<Token>) {
    && (forall i | 0 <= i < |toks| - 1 && toks[i] == Nbsp :: toks[i + 1] == Blank)
    && (forall i, c | 0 <= i < |toks| && toks[i] == Ch(c) :: !IsSpace(c))
  }

  lemma {:induction false} TokensWell(t: string)
    ensures WellToked(Tokens(t))
    decreases |t|
  {
    if t == [] {
    } else if !IsGap(t[0]) {
      TokensWell(t[1..]);
    } else if Lone(t) {
      TokensWell(t[1..]);
    } else {
      TokensWell(t[2..]);
      if |t| > 2 {
        TokensWell(t[3..]);
      }
    }
  }

  lemma {:induction false} SqueezeSkips(p: string, r: string)
    requires p != [] ==> !IsSpace(p[|p| - 1])
    requires forall i | 0 <= i < |p| :: IsSpace(p[i]) ==> p[i] == ' ' && i + 1 < |p| && !IsSpace(p[i + 1])
    ensures Squeeze(p + r) == p + Squeeze(r)
    decreases |p|
  {
    if p == [] {
      assert p + r == r;
    } else {
      hide *;
      assert (p + r)[1..] == p[1..] + r && (p + r)[0] == p[0];
      assert |p| > 1 ==> (p + r)[1] == p[1];
      SqueezeHead(p + r);
      SqueezeSkips(p[1..], r);
      assert p == [p[0]] + p[1..];
    }
  }

  lemma SqueezeHead(s: string)
    requires s != [] && (IsSpace(s[0]) ==> s[0] == ' ' && |s| > 1 && !IsSpace(s[1]))
    ensures Squeeze(s) == [s[0]] + Squeeze(s[1..])
  {
    if IsSpace(s[0]) {
      assert DropSpaces(s[1..]) == s[1..];
    }
  }

  lemma HtmlStart(t: string)
    ensures t != [] && !Lone(t) ==> Html(t) != [] && !IsSpace(Html(t)[0])
  {
  }

  lemma PieceIsSpelled(c: char)
    ensures Piece(TokenOf(c), 0) == Spelled(c)
  {
  }

  /** Simplifying escaped text yields its tokens. */
  lemma {:induction false} SqueezeHtml(t: string)
    ensures Squeeze(Html(t)) == Render(Tokens(t), 0)
    decreases |t|
  {
    if t == [] {
    } else if !IsGap(t[0]) {
      SqueezeHtml(t[1..]);
      SqueezePlain(t);
    } else if Lone(t) {
      SqueezeLone(t);
    } else {
      SqueezePair(t);
    }
  }

  lemma SqueezePlain(t: string)
    requires t != [] && !IsGap(t[0]) && Squeeze(Html(t[1..])) == Render(Tokens(t[1..]), 0)
    ensures Squeeze(Html(t)) == Render(Tokens(t), 0)
  {
    HtmlPlain(t);
    SpelledSolid(t[0]);
    assert Tokens(t) == [TokenOf(t[0])] + Tokens(t[1..]);
    hide *;
    SqueezeSkips(Spelled(t[0]), Html(t[1..]));
    PieceIsSpelled(t[0]);
    RenderOne(TokenOf(t[0]), Tokens(t[1..]), 0);
  }

  /** What stands for a character that is no gap ends solid and has no two spaces in a row. */
  lemma SpelledSolid(c: char)
    requires !IsGap(c)
    ensures var p := Spelled(c);
            && (p != [] ==> !IsSpace(p[|p| - 1]))
            && (forall i | 0 <= i < |p| :: IsSpace(p[i]) ==> p[i] == ' ' && i + 1 < |p| && !IsSpace(p[i + 1]))
  {
  }

  lemma HtmlPlain(t: string)
    requires t != [] && !IsGap(t[0])
    ensures Html(t) == Spelled(t[0]) + Html(t[1..])
  {
  }

  lemma {:induction false} SqueezeLone(t: string)
    requires Lone(t)
    ensures Squeeze(Html(t)) == Render(Tokens(t), 0)
    decreases |t|, 0
  {
    assert Html(t) == [t[0]] + Html(t[1..]);
    assert Html(t)[1..] == Html(t[1..]);
    HtmlStart(t[1..]);
    SqueezeHtml(t[1..]);
    assert DropSpaces(Html(t[1..])) == Html(t[1..]);
  }

  lemma {:induction false} SqueezePair(t: string)
    requires |t| >= 2 && IsGap(t[0]) && !Lone(t)
    ensures Squeeze(Html(t)) == Render(Tokens(t), 0)
    decreases |t|, 0
  {
    var u := t[2..];
    assert Html(t) == NBSP + (" " + Html(u));
    SqueezeSkips(NBSP, " " + Html(u));
    SqueezeBlank(u);
    if u == [] || (|u| == 1 && Lone(u)) {
      assert Render([Nbsp], 0) == NBSP;
    } else {
      var v := if Lone(u) then u[1..] else u;
      assert v == if Lone(u) then t[3..] else u;
      SqueezeHtml(v);
      RenderTwo(Nbsp, Blank, Tokens(v), 0);
      assert Tokens(t) == [Nbsp, Blank] + Tokens(v);
    }
  }

  lemma RenderTwo(a: Token, b: Token, r: seq<Token>, k: nat)
    ensures Render([a, b] + r, k) == Piece(a, k) + (Piece(b, k) + Render(r, k))
  {
    assert ([a, b] + r)[1..] == [b] + r;
    assert ([b] + r)[1..] == r;
  }

  /** A space in front of escaped text swallows one leading gap character, and vanishes before nothing. */
  lemma SqueezeBlank(u: string)
    ensures Squeeze(" " + Html(u)) ==
            if u == [] || (|u| == 1 && Lone(u)) then [] else " " + Squeeze(Html(if Lone(u) then u[1..] else u))
  {
    var s := " " + Html(u);
    assert s[1..] == Html(u);
    HtmlStart(u);
    if Lone(u) {
      assert Html(u) == [u[0]] + Html(u[1..]);
      assert Html(u)[1..] == Html(u[1..]);
      HtmlStart(u[1..]);
      assert DropSpaces(Html(u[1..])) == Html(u[1..]);
      assert DropSpaces(s[1..]) == Html(u[1..]);
    } else {
      assert DropSpaces(s[1..]) == Html(u);
    }
  }

  /** One element in the middle of a text without brackets before it: a break becomes a newline. */
  lemma StripBreak(a: string, b: string)
    requires forall i | 0 <= i < |a| :: a[i] != '<'
    ensures Stripped(a + BR + b) == Stripped(a + "\n" + b)
  {
    var s := a + BR + b;
    BreakIsFirst(a, b);
    RewriteBreak();
    BreakParts(a, b, s);
    hide *;
    StripAt(s, |a|, |a| + 5);
  }

  lemma BreakParts(a: string, b: string, s: string)
    requires s == a + BR + b
    ensures |s| >= |a| + 6 && s[..|a|] == a && s[|a| + 6..] == b && s[|a| + 1..|a| + 5] == "br /"
  {
    var inner := s[|a| + 1..|a| + 5];
    assert inner[0] == BR[1] == 'b' && inner[1] == BR[2] == 'r' && inner[2] == BR[3] == ' ' && inner[3] == BR[4] == '/';
    assert "br /"[0] == 'b' && "br /"[1] == 'r' && "br /"[2] == ' ' && "br /"[3] == '/';
  }

  lemma StripAt(s: string, pos: nat, endPos: nat)
    requires FirstElement(s) == (pos, endPos)
    ensures pos < endPos < |s|
    ensures Stripped(s) == Stripped(s[..pos] + Rewrite(s[pos + 1..endPos]) + s[endPos + 1..])
  {
    hide Stripped, StripOne, Rewrite, IndexOf;
    StrippedStep(s);
    StripOneAt(s, pos, endPos);
  }

  lemma StrippedStep(s: string)
    requires FirstElement(s).0 != -1
    ensures Stripped(s) == Stripped(StripOne(s))
  {
    hide StripOne, FirstElement;
  }

  lemma BreakIsFirst(a: string, b: string)
    requires forall i | 0 <= i < |a| :: a[i] != '<'
    ensures FirstElement(a + BR + b) == (|a|, |a| + 5)
  {
    var s := a + BR + b;
    assert forall i | 0 <= i < |a| :: s[i] == a[i];
    assert forall i | 0 <= i < |BR| :: s[|a| + i] == BR[i];
    assert s[|a|] == '<' && s[|a| + 1] == 'b' && s[|a| + 2] == 'r' && s[|a| + 3] == ' ' && s[|a| + 4] == '/'
      && s[|a| + 5] == '>';
    assert IndexOf(s, '<', 0) == |a|;
    assert IndexOf(s, '>', |a| + 1) == |a| + 5;
    hide IndexOf;
  }

  lemma RewriteBreak()
    ensures Rewrite("br /") == "\n"
  {
    SqueezeSkips("br /", []);
    assert "br /" + [] == "br /";
    assert Simplified("br /") == "br /";
    assert IndexOf("br /", ' ', 0) == 2;
    assert "br /"[..2] == "br";
    assert ToLower("br") == "br" by {
      assert "br"[1..] == "r";
    }
  }

  /** The stripping loop turns every break into a newline and leaves the other tokens alone. */
  lemma {:induction false} StripRender(a: string, toks: seq<Token>)
    requires forall i | 0 <= i < |a| :: a[i] != '<'
    ensures Stripped(a + Render(toks, 0)) == a + Render(toks, 1)
    decreases |toks|
  {
    if toks == [] {
      assert a + [] == a;
    } else {
      var rest := toks[1..];
      var p, b, c := Piece(toks[0], 1), Render(rest, 0), Render(rest, 1);
      StripToken(a, toks[0], b);
      NoBracket(toks[0]);
      NoBracketAppend(a, p);
      StripRender(a + p, rest);
      Assoc(a, p, c);
    }
  }

  lemma Assoc(a: string, b: string, c: string)
    ensures a + (b + c) == a + b + c
  {
  }

  lemma NoBracketAppend(a: string, p: string)
    requires (forall i | 0 <= i < |a| :: a[i] != '<') && (forall i | 0 <= i < |p| :: p[i] != '<')
    ensures forall i | 0 <= i < |a + p| :: (a + p)[i] != '<'
  {
  }

  lemma StripToken(a: string, tok: Token, b: string)
    requires forall i | 0 <= i < |a| :: a[i] != '<'
    ensures Stripped(a + (Piece(tok, 0) + b)) == Stripped(a + Piece(tok, 1) + b)
  {
    Assoc(a, Piece(tok, 0), b);
    if tok == Newline {
      StripBreak(a, b);
    } else {
      NoBracket(tok);
    }
    hide Stripped;
  }

  lemma NoBracket(tok: Token)
    ensures tok != Newline ==> Piece(tok, 0) == Piece(tok, 1)
    ensures forall i | 0 <= i < |Piece(tok, 1)| :: Piece(tok, 1)[i] != '<'
  {
  }

  /** What stage k of the entity replacements looks for, and what it puts in. */
  function Before(k: nat): string
    requires 1 <= k <= 6
  {
    if k == 1 then TAB else if k == 2 then "&gt;" else if k == 3 then "&lt;" else if k == 4 then "&quot;"
    else if k == 5 then NBSP else "&amp;"
  }

  function After(k: nat): string
    requires 1 <= k <= 6
  {
    if k == 1 then "\t" else if k == 2 then ">" else if k == 3 then "<" else if k == 4 then "\""
    else if k == 5 then " " else "&"
  }

  /** An ampersand piece that the stage does not look for is passed over, whatever follows. */
  lemma ReplaceMisses(p: string, r: string, before: string, after: string)
    requires p != [] && before != [] && !(before <= p + r)
    requires forall i | 1 <= i < |p| :: p[i] != before[0]
    ensures Replace(p + r, before, after) == p + Replace(r, before, after)
  {
    ReplaceMiss(p + r, before, after);
    hide Replace;
    assert (p + r)[1..] == p[1..] + r;
    ReplaceSkips(p[1..], r, before, after);
    assert p == [p[0]] + p[1..];
  }

  lemma ReplaceMiss(s: string, before: string, after: string)
    requires s != [] && before != [] && !(before <= s)
    ensures Replace(s, before, after) == [s[0]] + Replace(s[1..], before, after)
  {
  }

  /** How stage k meets one token. */
  lemma StageToken(tok: Token, r: string, k: nat)
    requires 1 <= k <= 6
    requires tok == Nbsp && r != [] ==> r[0] == ' '
    ensures Replace(Piece(tok, k) + r, Before(k), After(k)) == Piece(tok, k + 1) + Replace(r, Before(k), After(k))
  {
    var p := Piece(tok, k);
    StagePiece(tok, k);
    if p == Before(k) {
      hide *;
      ReplaceHit(r, Before(k), After(k));
    } else if p[0] != '&' {
      hide Piece, Replace;
      ReplaceSkips(p, r, Before(k), After(k));
    } else {
      StageMiss(tok, r, k);
      hide Piece, Replace;
      ReplaceMisses(p, r, Before(k), After(k));
    }
  }

  lemma StagePiece(tok: Token, k: nat)
    requires 1 <= k <= 6
    ensures Piece(tok, k) != [] && Before(k)[0] == '&'
    ensures Piece(tok, k + 1) == if Piece(tok, k) == Before(k) then After(k) else Piece(tok, k)
    ensures Piece(tok, k) != Before(k) ==> forall i | 1 <= i < |Piece(tok, k)| :: Piece(tok, k)[i] != '&'
  {
  }

  lemma StageMiss(tok: Token, r: string, k: nat)
    requires 1 <= k <= 6 && Piece(tok, k) != Before(k) && Piece(tok, k)[0] == '&'
    requires tok == Nbsp && r != [] ==> r[0] == ' '
    ensures !(Before(k) <= Piece(tok, k) + r)
  {
    var s := Piece(tok, k) + r;
    if k == 1 && tok == Nbsp {
      assert Piece(tok, k) == NBSP;
      assert |s| >= 7 ==> s[6] == ' ';
      assert Before(k)[6] == '&';
    } else {
      assert s[1] == Piece(tok, k)[1];
      assert s[1] != Before(k)[1];
    }
  }

  /** A whole stage, over well-formed tokens. */
  lemma {:induction false} StageRender(toks: seq<Token>, k: nat)
    requires 1 <= k <= 6 && WellToked(toks)
    ensures Replace(Render(toks, k), Before(k), After(k)) == Render(toks, k + 1)
    decreases |toks|
  {
    if toks != [] {
      var rest := toks[1..];
      assert WellToked(rest);
      assert toks[0] == Nbsp && rest != [] ==> rest[0] == Blank;
      StageToken(toks[0], Render(rest, k), k);
      StageRender(rest, k);
    }
  }

  /** All stages: what unescape makes of simplified escaped text, before the numeric entity. */
  lemma EntitiesOfTokens(toks: seq<Token>)
    requires WellToked(toks)
    ensures Entities(Stripped(Render(toks, 0))) == Replace(Render(toks, 7), "&#160;", " ")
  {
    StripRender([], toks);
    assert [] + Render(toks, 0) == Render(toks, 0) && [] + Render(toks, 1) == Render(toks, 1);
    hide Replace, Render, Stripped;
    StageRender(toks, 1);
    StageRender(toks, 2);
    StageRender(toks, 3);
    StageRender(toks, 4);
    StageRender(toks, 5);
    StageRender(toks, 6);
  }

  // ---- the round trip ----

  /** The text that the tokens of t spell. */
  function Read(t: string): string {
    Render(Tokens(t), 7)
  }

  lemma ReadPair(t: string)
    requires |t| >= 2 && IsGap(t[0]) && !Lone(t)
    ensures var u := t[2..];
            Read(t) == if u == [] || (|u| == 1 && Lone(u)) then " " else "  " + Read(if Lone(u) then u[1..] else u)
  {
    var u := t[2..];
    if u == [] || (|u| == 1 && Lone(u)) {
      assert Render([Nbsp], 7) == " ";
    } else {
      var v := if Lone(u) then u[1..] else u;
      assert v == if Lone(u) then t[3..] else u;
      RenderTwo(Nbsp, Blank, Tokens(v), 7);
    }
  }

  lemma GapPair(t: string)
    requires |t| >= 2 && IsGap(t[0]) && IsGap(t[1])
    ensures GapsKept(t) <==> t[2..] != [] && !Lone(t[2..]) && t[0] == ' ' && t[1] == ' ' && GapsKept(t[2..])
  {
    hide *;
    if Gap(t[2..]) == 0 {
      GapPairOnly(t, t[2..]);
    } else {
      GapPairMore(t, t[2..], Gap(t[2..]));
    }
  }

  lemma GapPairOnly(t: string, u: string)
    requires |t| >= 2 && IsGap(t[0]) && IsGap(t[1]) && u == t[2..] && Gap(u) == 0
    ensures GapsKept(t) <==> u != [] && !Lone(u) && t[0] == ' ' && t[1] == ' ' && GapsKept(u)
  {
    hide *;
    GapTwo(t);
    PlainTwo(t, u, 0);
    LoneGap(u);
    GapUnfold(t);
    PlainNone(u);
  }

  lemma GapPairMore(t: string, u: string, k: nat)
    requires |t| >= 2 && IsGap(t[0]) && IsGap(t[1]) && u == t[2..] && k == Gap(u) > 0
    ensures GapsKept(t) <==> u != [] && !Lone(u) && t[0] == ' ' && t[1] == ' ' && GapsKept(u)
  {
    hide *;
    GapTwo(t);
    PlainTwo(t, u, k);
    LoneGap(u);
    GapUnfold(t);
    SliceTwo(t, k);
    GapUnfold(u);
    assert (k + 2) % 2 == k % 2;
  }

  lemma PlainNone(t: string)
    ensures AllPlain(t, 0)
  {
  }

  lemma SliceTwo(t: string, g: nat)
    requires g + 2 <= |t|
    ensures t[2..][g..] == t[g + 2..]
  {
  }

  lemma LoneGap(t: string)
    ensures Lone(t) <==> Gap(t) == 1
  {
    assert |t| > 1 ==> t[1..][0] == t[1];
  }

  lemma GapUnfold(t: string)
    ensures var k := Gap(t);
            k > 0 ==> (GapsKept(t) <==> k < |t| && (k == 1 || k % 2 == 0) && AllPlain(t, k) && GapsKept(t[k..]))
  {
    hide AllPlain, Gap;
  }

  lemma GapTwo(t: string)
    requires |t| >= 2 && IsGap(t[0]) && IsGap(t[1])
    ensures Gap(t) == 2 + Gap(t[2..])
  {
    assert t[1..][1..] == t[2..];
    assert Gap(t) == 1 + Gap(t[1..]);
  }

  lemma PlainTwo(t: string, u: string, k: nat)
    requires |t| >= 2 && u == t[2..] && k <= |u|
    ensures AllPlain(t, k + 2) <==> t[0] == ' ' && t[1] == ' ' && AllPlain(u, k)
  {
    assert forall i | 0 <= i < k :: u[i] == t[i + 2];
    assert AllPlain(u, k) ==> forall i | 2 <= i < k + 2 :: t[i] == u[i - 2];
  }

  lemma GapLone(t: string)
    requires Lone(t)
    ensures Gap(t) == 1 && (GapsKept(t) <==> |t| > 1 && t[0] == ' ' && GapsKept(t[1..]))
  {
    assert |t| > 1 ==> t[1..][0] == t[1];
    assert Gap(t[1..]) == 0;
  }

  lemma ReadPlain(t: string)
    requires t != [] && !IsGap(t[0])
    ensures Read(t) == [t[0]] + Read(t[1..])
    ensures GapsKept(t) <==> GapsKept(t[1..])
  {
    PieceBack(t[0]);
    RenderOne(TokenOf(t[0]), Tokens(t[1..]), 7);
    assert Gap(t) == 0;
    hide Piece, Render;
  }

  lemma PieceBack(c: char)
    requires !IsGap(c)
    ensures Piece(TokenOf(c), 7) == [c]
  {
  }

  lemma RenderOne(a: Token, r: seq<Token>, k: nat)
    ensures Render([a] + r, k) == Piece(a, k) + Render(r, k)
  {
    assert ([a] + r)[1..] == r;
  }

  lemma ReadLone(t: string)
    requires Lone(t)
    ensures Read(t) == if |t| == 1 then "" else " " + Read(t[1..])
  {
    assert |t| > 1 ==> t[1..][0] == t[1];
  }

  /** Nothing grows on the way, and a text is read back unchanged exactly when its gaps are kept. */
  lemma {:induction false} ReadBack(t: string)
    ensures |Read(t)| <= |t|
    ensures Read(t) == t <==> GapsKept(t)
    decreases |t|
  {
    hide GapsKept, Read;
    if t == [] {
      ReadNothing();
    } else if !IsGap(t[0]) {
      ReadPlain(t);
      ReadBack(t[1..]);
    } else if Lone(t) {
      GapLone(t);
      ReadLone(t);
      ReadBack(t[1..]);
      ReadNothing();
    } else {
      ReadPair(t);
      GapPair(t);
      var u := t[2..];
      ReadBack(u);
      if u != [] {
        ReadBack(u[1..]);
      }
    }
  }

  lemma ReadNothing()
    ensures Read("") == "" && GapsKept("")
  {
  }

  /** The last replacement shortens every text that it finds something in. */
  lemma {:induction false} NumericShrinks(s: string)
    ensures |Replace(s, "&#160;", " ")| <= |s|
    ensures |Replace(s, "&#160;", " ")| == |s| <==> !Contains(s, "&#160;")
    ensures !Contains(s, "&#160;") ==> Replace(s, "&#160;", " ") == s
    decreases |s|
  {
    ContainsStep(s, "&#160;");
    if s == [] {
    } else if "&#160;" <= s {
      NumericShrinks(s[6..]);
    } else {
      NumericShrinks(s[1..]);
    }
  }

  lemma ContainsStep(s: string, p: string)
    requires p != []
    ensures Contains(s, p) <==> s != [] && (p <= s || Contains(s[1..], p))
  {
    assert s[0..] == s;
    if s != [] {
      assert forall i | 0 <= i <= |s| - 1 :: s[1..][i..] == s[i + 1..];
      assert forall i | 1 <= i <= |s| :: s[i..] == s[1..][i - 1..];
    }
  }

  /** unescape undoes escape exactly on the texts that RoundTrips accepts. */
  lemma RoundTrip(t: string)
    ensures Unescaped(Escape(t)) == t <==> RoundTrips(t)
  {
    EscapeIsHtml(t);
    var x := if Lone(t) then t[1..] else t;
    HtmlStart(x);
    assert DropSpaces(Html(t)) == Html(x);
    SqueezeHtml(x);
    TokensWell(x);
    EntitiesOfTokens(Tokens(x));
    ReadBack(x);
    NumericShrinks(Read(x));
    assert Gap(t) == 1 <==> Lone(t);
  }
}
