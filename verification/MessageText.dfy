/**
  Plain text to HTML and back (libkopete/kopetemessage.cpp:301-372). Strings are sequences of
  characters; the Qt operations used are defined here by their documented meaning.
 */
module MessageText {

  /** QChar::isSpace, which is also what \s matches. */
  predicate IsSpace(c: char) {
    || '\t' <= c <= '\r' || c == ' ' || c == '\U{85}' || c == '\U{A0}' || c == '\U{1680}'
    || '\U{2000}' <= c <= '\U{200A}' || c == '\U{2028}' || c == '\U{2029}'
    || c == '\U{202F}' || c == '\U{205F}' || c == '\U{3000}'
  }

  /** QString::replace: every occurrence from left to right, without looking at what was put in. */
  function Replace(s: string, before: string, after: string): string
    requires before != []
    decreases |s|
  {
    if s == [] then []
    else if before <= s then after + Replace(s[|before|..], before, after)
    else [s[0]] + Replace(s[1..], before, after)
  }

  // ---- escape ----

  function EscapeChar(c: char): string {
    if c == '<' then "&lt;" else if c == '>' then "&gt;"
    else if c == '&' then "&amp;" else if c == '"' then "&quot;"
    else [c]
  }

  /** QString::toHtmlEscaped. */
  function ToHtmlEscaped(s: string): string {
    if s == [] then [] else EscapeChar(s[0]) + ToHtmlEscaped(s[1..])
  }

  const NBSP := "&nbsp;"
  const TAB := "&nbsp;&nbsp;&nbsp;&nbsp;"
  const BR := "<br />"

  /** Replacing the regular expression \s\s by a non-breaking and a plain space. */
  function ReplacePairs(s: string): string
    decreases |s|
  {
    if s == [] then []
    else if |s| >= 2 && IsSpace(s[0]) && IsSpace(s[1]) then "&nbsp; " + ReplacePairs(s[2..])
    else [s[0]] + ReplacePairs(s[1..])
  }

  function Escape(text: string): string {
    ReplacePairs(Replace(Replace(ToHtmlEscaped(text), "\n", BR), "\t", TAB))
  }

  // ---- unescape ----

  function DropSpaces(s: string): (r: string)
    ensures |r| <= |s|
    ensures r != [] ==> !IsSpace(r[0])
  {
    if s == [] || !IsSpace(s[0]) then s else DropSpaces(s[1..])
  }

  /** Every run of white space becomes one space; one at the end is dropped. */
  function Squeeze(s: string): (r: string)
    ensures |r| <= |s|
    decreases |s|
  {
    if s == [] then []
    else if IsSpace(s[0]) then
      var r := DropSpaces(s[1..]);
      if r == [] then [] else " " + Squeeze(r)
    else [s[0]] + Squeeze(s[1..])
  }

  /** QString::simplified. */
  function Simplified(s: string): (r: string)
    ensures |r| <= |s|
  {
    Squeeze(DropSpaces(s))
  }

  /** QString::indexOf for a character: the first position from from on, or -1. */
  function IndexOf(s: string, c: char, from: nat): (i: int)
    ensures i == -1 || (from <= i < |s| && s[i] == c)
    ensures forall j | from <= j < (if i == -1 then |s| else i) :: s[j] != c
    decreases |s| - from
  {
    if from >= |s| then -1 else if s[from] == c then from else IndexOf(s, c, from + 1)
  }

  /** QString::indexOf for a string; a negative start counts from the end. */
  function IndexOfText(s: string, p: string, from: int): (i: int)
    ensures i == -1 || (0 <= i && i + |p| <= |s| && s[i..i + |p|] == p)
    decreases |s| - from, if from < 0 then 1 else 0
  {
    if from < 0 then IndexOfFrom(s, p, if from + |s| < 0 then 0 else from + |s|) else IndexOfFrom(s, p, from)
  }

  function IndexOfFrom(s: string, p: string, from: nat): (i: int)
    ensures i == -1 || (from <= i && i + |p| <= |s| && s[i..i + |p|] == p)
    decreases |s| - from
  {
    if from + |p| > |s| then -1 else if s[from..from + |p|] == p then from else IndexOfFrom(s, p, from + 1)
  }

  /** QString::toLower, as far as comparing with an ASCII name goes. */
  function ToLower(s: string): string {
    if s == [] then [] else [if 'A' <= s[0] <= 'Z' then s[0] - 'A' + 'a' else s[0]] + ToLower(s[1..])
  }

  /** What one element becomes; match is what stands between its angle brackets. */
  function Rewrite(match_: string): (r: string)
    ensures |r| <= |match_| + 1
  {
    var inner := Simplified(match_);
    var elemEndPos := IndexOf(inner, ' ', 0);
    var elem := ToLower(if elemEndPos == -1 then inner else inner[..elemEndPos]);
    if elem == "img" then
      var attrTitle := "title=\"";
      var titlePos := IndexOfText(inner, attrTitle, elemEndPos);
      var titleEndPos := IndexOf(inner, '"', titlePos + |attrTitle|);
      if titlePos == -1 || titleEndPos == -1 then [] else inner[titlePos + |attrTitle|..titleEndPos]
    else if elem == "/p" || elem == "/div" || elem == "br" then "\n"
    else []
  }

  /** The position of the first complete element, if there is one. */
  function FirstElement(data: string): (r: (int, int))
    ensures r.0 == -1 || (0 <= r.0 < r.1 < |data| && data[r.0] == '<' && data[r.1] == '>')
    ensures r.0 == -1 <==> forall i, j | 0 <= i < j < |data| && data[i] == '<' :: data[j] != '>'
  {
    var pos := IndexOf(data, '<', 0);
    if pos == -1 then (-1, -1)
    else
      var endPos := IndexOf(data, '>', pos + 1);
      if endPos == -1 then (-1, -1) else (pos, endPos)
  }

  /** One pass of the stripping loop. */
  function StripOne(data: string): (r: string)
    requires FirstElement(data).0 != -1
    ensures |r| < |data|
  {
    var (pos, endPos) := FirstElement(data);
    data[..pos] + Rewrite(data[pos + 1..endPos]) + data[endPos + 1..]
  }

  /** The stripping loop, run to its end. */
  function Stripped(data: string): (r: string)
    ensures forall i, j | 0 <= i < j < |r| && r[i] == '<' :: r[j] != '>'
    ensures |r| <= |data|
    decreases |data|
  {
    if FirstElement(data).0 == -1 then data else Stripped(StripOne(data))
  }

  /** The replacements of named entities, in the order of the source. */
  function Entities(data: string): string {
    Replace(Replace(Replace(Replace(Replace(Replace(Replace(data,
      TAB, "\t"), "&gt;", ">"), "&lt;", "<"), "&quot;", "\""), NBSP, " "), "&amp;", "&"), "&#160;", " ")
  }

  function Unescaped(xml: string): string {
    Entities(Stripped(Simplified(xml)))
  }

  lemma StripOneAt(s: string, pos: nat, endPos: nat)
    requires FirstElement(s) == (pos, endPos) && endPos < |s| && pos < endPos
    ensures StripOne(s) == s[..pos] + Rewrite(s[pos + 1..endPos]) + s[endPos + 1..]
  {
    hide FirstElement, Rewrite;
  }

  /** The body of the loop: the element between pos and endPos is replaced or removed. */
  method StripPass(text: string, pos: nat, endPos: nat) returns (data: string)
    requires FirstElement(text) == (pos, endPos) && FirstElement(text).0 != -1
    ensures data == StripOne(text)
  {
    hide Simplified, ToLower, IndexOf, IndexOfText, StripOne, FirstElement;
    var inner := Simplified(text[pos + 1..endPos]);
    var elemEndPos := IndexOf(inner, ' ', 0);
    var elem := ToLower(if elemEndPos == -1 then inner else inner[..elemEndPos]);
    data := text[..pos] + text[endPos + 1..];
    ghost var put := "";
    assert text[..pos] + put + text[endPos + 1..] == data;
    if elem == "img" {
      var attrTitle := "title=\"";
      var titlePos := IndexOfText(inner, attrTitle, elemEndPos);
      var titleEndPos := IndexOf(inner, '"', titlePos + |attrTitle|);
      if titlePos != -1 && titleEndPos != -1 {
        var orig := inner[titlePos + |attrTitle|..titleEndPos];
        put := orig;
        data := text[..pos] + orig + text[endPos + 1..];
      }
    } else if elem == "/p" || elem == "/div" || elem == "br" {
      put := "\n";
      data := text[..pos] + "\n" + text[endPos + 1..];
    }
    assert put == Rewrite(text[pos + 1..endPos]);
    StripOneAt(text, pos, endPos);
  }

  /**
    unescape. The loop ends on every input because every pass shortens the text, even one that puts
    back a title containing angle brackets; on exit no opening bracket has a closing one after it.
   */
  method Unescape(xml: string) returns (data: string)
    ensures data == Unescaped(xml)
  {
    data := Simplified(xml);
    ghost var start := data;
    var pos := IndexOf(data, '<', 0);
    while pos != -1
      invariant pos == IndexOf(data, '<', 0)
      invariant Stripped(data) == Stripped(start)
      decreases |data|
    {
      var endPos := IndexOf(data, '>', pos + 1);
      if endPos == -1 {
        break;
      }
      assert FirstElement(data) == (pos, endPos);
      hide Stripped, StripOne, FirstElement, IndexOf;
      data := StripPass(data, pos, endPos);
      pos := IndexOf(data, '<', 0);
    }
    hide Replace, Stripped;
    data := Replace(data, TAB, "\t");
    data := Replace(data, "&gt;", ">");
    data := Replace(data, "&lt;", "<");
    data := Replace(data, "&quot;", "\"");
    data := Replace(data, NBSP, " ");
    data := Replace(data, "&amp;", "&");
    data := Replace(data, "&#160;", " ");
  }
}
