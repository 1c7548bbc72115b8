/**
  What unescape puts in the place of each element (libkopete/kopetemessage.cpp:308-345), said of the
  markup itself: line breaks for the ends of paragraphs and divisions and for br, its title for an image,
  nothing for the rest.
 */
module Elements {
  import opened MessageText

  /** A name in whatever letter case. word is spelled in small letters. */
  predicate SpelledAs(name: string, word: string) {
    && |name| == |word|
    && forall i | 0 <= i < |word| ::
         name[i] == word[i] || ('a' <= word[i] <= 'z' && name[i] == word[i] - 'a' + 'A')
  }

  /** The elements that end a line. */
  predicate EndsLine(name: string) {
    SpelledAs(name, "/p") || SpelledAs(name, "/div") || SpelledAs(name, "br")
  }

  /** What may stand between the brackets of an element of that name: the name, and more behind white space. */
  predicate Named(name: string, attributes: string) {
    && name != [] && (forall c | c in name :: !IsSpace(c) && c != '>')
    && (attributes == [] || IsSpace(attributes[0])) && '>' !in attributes
  }

  // ---------- the first element of a text ----------

  lemma {:induction false} IndexOfPast(a: string, b: string, c: char, from: nat)
    requires from <= |a| && forall j | from <= j < |a| :: a[j] != c
    ensures IndexOf(a + [c] + b, c, from) == |a|
    decreases |a| - from
  {
    if from < |a| {
      IndexOfPast(a, b, c, from + 1);
    }
  }

  /** The first element of a text in which no other bracket comes before it, and what becomes of it. */
  lemma FirstGoes(a: string, inside: string, b: string)
    requires '<' !in a && '>' !in inside
    ensures Stripped(a + "<" + inside + ">" + b) == Stripped(a + Rewrite(inside) + b)
  {
    hide *;
    var s, end := a + "<" + inside + ">" + b, |a| + 1 + |inside|;
    FirstIs(a, inside, b);
    Around(a, inside, b);
    StripOneAt(s, |a|, end);
    OnePass(s);
  }

  lemma FirstIs(a: string, inside: string, b: string)
    requires '<' !in a && '>' !in inside
    ensures FirstElement(a + "<" + inside + ">" + b) == (|a|, |a| + 1 + |inside|)
  {
    var s, t := a + "<" + inside + ">" + b, a + "<" + inside;
    assert s == a + ['<'] + (inside + ">" + b) && s == t + ['>'] + b;
    IndexOfPast(a, inside + ">" + b, '<', 0);
    forall j | |a| + 1 <= j < |t| ensures t[j] != '>' {
      assert t[j] == inside[j - |a| - 1];
    }
    IndexOfPast(t, b, '>', |a| + 1);
    hide IndexOf;
  }

  lemma Around(a: string, inside: string, b: string)
    ensures var s, end := a + "<" + inside + ">" + b, |a| + 1 + |inside|;
            s[..|a|] == a && s[|a| + 1..end] == inside && s[end + 1..] == b && end < |s|
  {
  }

  lemma OnePass(s: string)
    requires FirstElement(s).0 != -1
    ensures Stripped(s) == Stripped(StripOne(s))
  {
  }

  // ---------- the name of an element ----------

  /** What precedes the first white space of a text comes through simplified, followed by a space or by nothing. */
  lemma {:induction false} SqueezeKeepsWord(name: string, rest: string)
    requires (forall c | c in name :: !IsSpace(c)) && (rest == [] || IsSpace(rest[0]))
    ensures Squeeze(name + rest) == name + Squeeze(rest)
    ensures Squeeze(rest) == [] || Squeeze(rest)[0] == ' '
  {
    hide *;
    SqueezeGap(rest);
    if name == [] {
      assert name + rest == rest && name + Squeeze(rest) == Squeeze(rest);
    } else {
      assert name[0] in name;
      var tail := name[1..];
      SqueezeKeepsWord(tail, rest);
      SqueezeOne(name + rest);
      Split(name, rest);
      Split(name, Squeeze(rest));
    }
  }

  lemma Split(name: string, rest: string)
    requires name != []
    ensures (name + rest)[0] == name[0] && (name + rest)[1..] == name[1..] + rest
    ensures [name[0]] + (name[1..] + rest) == name + rest
  {
  }

  lemma SqueezeGap(rest: string)
    requires rest == [] || IsSpace(rest[0])
    ensures Squeeze(rest) == [] || Squeeze(rest)[0] == ' '
  {
  }

  lemma SqueezeOne(s: string)
    requires s != [] && !IsSpace(s[0])
    ensures Squeeze(s) == [s[0]] + Squeeze(s[1..])
  {
  }

  lemma {:induction false} NoSuchIndex(s: string, c: char, from: nat)
    requires forall j | from <= j < |s| :: s[j] != c
    ensures IndexOf(s, c, from) == -1
    decreases |s| - from
  {
  }

  lemma NoSpace(name: string)
    requires forall c | c in name :: !IsSpace(c)
    ensures forall i | 0 <= i < |name| :: name[i] != ' '
  {
    forall i | 0 <= i < |name| ensures name[i] != ' ' {
      assert name[i] in name && !IsSpace(name[i]);
    }
  }

  lemma NameEnds(name: string, more: string)
    requires name != [] && (forall c | c in name :: !IsSpace(c)) && (more == [] || more[0] == ' ')
    ensures var e := IndexOf(name + more, ' ', 0);
            (e == -1 <==> more == []) && (if e == -1 then name + more else (name + more)[..e]) == name
  {
    NoSpace(name);
    if more == [] {
      assert name + more == name;
      NoSuchIndex(name, ' ', 0);
    } else {
      assert name + more == name + [' '] + more[1..];
      IndexOfPast(name, more[1..], ' ', 0);
    }
  }

  lemma {:induction false} LowerLetters(name: string)
    ensures |ToLower(name)| == |name|
    ensures forall i | 0 <= i < |name| ::
              ToLower(name)[i] == if 'A' <= name[i] <= 'Z' then name[i] - 'A' + 'a' else name[i]
  {
    if name != [] {
      LowerLetters(name[1..]);
    }
  }

  /** A name is a small-letter word once lowered exactly if it spells that word. */
  lemma LowerMeans(name: string, word: string)
    requires forall c | c in word :: !('A' <= c <= 'Z')
    ensures ToLower(name) == word <==> SpelledAs(name, word)
  {
    LowerLetters(name);
    hide ToLower;
    if ToLower(name) == word {
      forall i | 0 <= i < |word|
        ensures name[i] == word[i] || ('a' <= word[i] <= 'z' && name[i] == word[i] - 'a' + 'A')
      {
        assert ToLower(name)[i] == word[i];
      }
    }
    if SpelledAs(name, word) {
      forall i | 0 <= i < |word| ensures ToLower(name)[i] == word[i] {
        assert word[i] in word;
      }
    }
  }

  /** What an element between whose brackets inside stands becomes, by its name. */
  lemma NameDecides(name: string, attributes: string)
    requires Named(name, attributes)
    ensures Simplified(name + attributes) == name + Squeeze(attributes)
    ensures EndsLine(name) ==> Rewrite(name + attributes) == "\n"
    ensures !EndsLine(name) && !SpelledAs(name, "img") ==> Rewrite(name + attributes) == ""
  {
    var inner := Simplified(name + attributes);
    assert name[0] in name && DropSpaces(name + attributes) == name + attributes;
    SqueezeKeepsWord(name, attributes);
    NameEnds(name, Squeeze(attributes));
    LowerMeans(name, "/p");
    LowerMeans(name, "/div");
    LowerMeans(name, "br");
    LowerMeans(name, "img");
    hide Simplified, IndexOf, IndexOfText, ToLower, SpelledAs;
  }

  /** The end of a paragraph or of a division, and a line break, in whatever letter case, become a newline. */
  lemma LineEnds(a: string, name: string, attributes: string, b: string)
    requires '<' !in a && Named(name, attributes) && EndsLine(name)
    ensures Stripped(a + "<" + (name + attributes) + ">" + b) == Stripped(a + "\n" + b)
  {
    hide *;
    var inside := name + attributes;
    NothingCloses(name, attributes);
    NameDecides(name, attributes);
    FirstGoes(a, inside, b);
  }

  lemma NothingCloses(name: string, attributes: string)
    requires Named(name, attributes)
    ensures '>' !in name + attributes
  {
  }

  /** So "</p>", "</div>" and "<br>" become newlines. */
  lemma PlainLineEnds(a: string, b: string)
    requires '<' !in a
    ensures Stripped(a + "</p>" + b) == Stripped(a + "\n" + b)
    ensures Stripped(a + "</div>" + b) == Stripped(a + "\n" + b)
    ensures Stripped(a + "<br>" + b) == Stripped(a + "\n" + b)
    ensures Stripped(a + "<BR>" + b) == Stripped(a + "\n" + b)
  {
    hide Stripped, Rewrite;
    OneLineEnds(a, "/p", b);
    OneLineEnds(a, "/div", b);
    OneLineEnds(a, "br", b);
    OneLineEnds(a, "BR", b);
    assert "<" + "/p" + ">" == "</p>" && "<" + "/div" + ">" == "</div>";
    assert "<" + "br" + ">" == "<br>" && "<" + "BR" + ">" == "<BR>";
  }

  lemma OneLineEnds(a: string, name: string, b: string)
    requires '<' !in a && Named(name, "") && EndsLine(name)
    ensures Stripped(a + ("<" + name + ">") + b) == Stripped(a + "\n" + b)
  {
    hide *;
    LineEnds(a, name, "", b);
    assert name + "" == name;
    var left, right := a + "<" + name + ">" + b, a + ("<" + name + ">") + b;
    assert left == right;
  }

  /** An element of any name other than these, and img, leaves nothing. */
  lemma OthersVanish(a: string, name: string, attributes: string, b: string)
    requires '<' !in a && Named(name, attributes) && !EndsLine(name) && !SpelledAs(name, "img")
    ensures Stripped(a + "<" + (name + attributes) + ">" + b) == Stripped(a + b)
  {
    hide *;
    NothingCloses(name, attributes);
    NameDecides(name, attributes);
    FirstGoes(a, name + attributes, b);
    assert a + "" == a;
  }

  // ---------- images ----------

  const TITLE := "title=\""

  /** Where the first title of an image starts, if there is one: past title=". */
  lemma {:induction false} TitleAt(before: string, rest: string, from: nat)
    requires from <= |before| && forall i | from <= i < |before| :: !(TITLE <= (before + TITLE + rest)[i..])
    ensures IndexOfFrom(before + TITLE + rest, TITLE, from) == |before|
    decreases |before| - from
  {
    var s := before + TITLE + rest;
    if from < |before| {
      assert s[from..from + |TITLE|] == s[from..][..|TITLE|];
      TitleAt(before, rest, from + 1);
    } else {
      assert s[from..from + |TITLE|] == TITLE;
    }
  }

  lemma {:induction false} NoTitle(s: string, from: nat)
    requires forall i | from <= i <= |s| :: !(TITLE <= s[i..])
    ensures IndexOfFrom(s, TITLE, from) == -1
    decreases |s| - from
  {
    if from + |TITLE| <= |s| {
      assert s[from..from + |TITLE|] == s[from..][..|TITLE|];
      NoTitle(s, from + 1);
    }
  }

  /**
    An image leaves the text of its first title, if it has one. The attributes are taken with their white
    space squeezed, as the program does before it looks for the title.
   */
  lemma TitleStays(a: string, name: string, attributes: string, before: string, title: string, after: string, b: string)
    requires '<' !in a && Named(name, attributes) && SpelledAs(name, "img")
    requires Squeeze(attributes) == before + TITLE + title + "\"" + after
    requires forall i | 0 <= i < |before| :: !(TITLE <= Squeeze(attributes)[i..])
    requires '"' !in title
    ensures Stripped(a + "<" + (name + attributes) + ">" + b) == Stripped(a + title + b)
  {
    hide *;
    NothingCloses(name, attributes);
    TitleRewritten(name, attributes, before, title, after);
    FirstGoes(a, name + attributes, b);
  }

  lemma TitleRewritten(name: string, attributes: string, before: string, title: string, after: string)
    requires Named(name, attributes) && SpelledAs(name, "img")
    requires Squeeze(attributes) == before + TITLE + title + "\"" + after
    requires forall i | 0 <= i < |before| :: !(TITLE <= Squeeze(attributes)[i..])
    requires '"' !in title
    ensures Rewrite(name + attributes) == title
  {
    hide *;
    var more := Squeeze(attributes);
    IsImage(name, attributes);
    TitleFound(name, more, before, title, after);
    ImageBecomes(name, attributes, 3 + |before|, 3 + |before| + |TITLE| + |title|);
  }

  /** An img element, simplified, is its name with the squeezed attributes behind it. */
  lemma IsImage(name: string, attributes: string)
    requires Named(name, attributes) && SpelledAs(name, "img")
    ensures |name| == 3 && (forall c | c in name :: !IsSpace(c))
    ensures Simplified(name + attributes) == name + Squeeze(attributes)
    ensures Squeeze(attributes) == [] || Squeeze(attributes)[0] == ' '
  {
    NameDecides(name, attributes);
    SqueezeKeepsWord(name, attributes);
    hide Simplified, Squeeze;
  }

  lemma ImageBecomes(name: string, attributes: string, start: int, end: int)
    requires Named(name, attributes) && SpelledAs(name, "img")
    requires var inner := name + Squeeze(attributes);
             var gap := IndexOf(inner, ' ', 0);
             IndexOfText(inner, TITLE, gap) == start
             && (start != -1 ==> IndexOf(inner, '"', start + |TITLE|) == end)
    ensures Rewrite(name + attributes) ==
      if start == -1 || end == -1 then "" else (name + Squeeze(attributes))[start + |TITLE|..end]
  {
    var more := Squeeze(attributes);
    NameDecides(name, attributes);
    SqueezeKeepsWord(name, attributes);
    NameEnds(name, more);
    LowerMeans(name, "img");
    hide Simplified, Squeeze, IndexOf, IndexOfText, ToLower, SpelledAs, EndsLine;
  }

  lemma TitleFound(name: string, more: string, before: string, title: string, after: string)
    requires |name| == 3 && (forall c | c in name :: !IsSpace(c)) && '"' !in title
    requires more == before + TITLE + title + "\"" + after && more != [] && more[0] == ' '
    requires forall i | 0 <= i < |before| :: !(TITLE <= more[i..])
    ensures var inner, start := name + more, 3 + |before|;
            && IndexOf(inner, ' ', 0) == 3
            && IndexOfText(inner, TITLE, 3) == start
            && IndexOf(inner, '"', start + |TITLE|) == start + |TITLE| + |title|
            && inner[start + |TITLE|..start + |TITLE| + |title|] == title
  {
    hide *;
    var inner := name + more;
    Joined(name, before, TITLE, title, after);
    FirstSpace(name, more);
    forall i | 3 <= i < |name + before| ensures !(TITLE <= inner[i..]) {
      Shifted(name, more, i);
    }
    TitleInside(inner, name + before, title, after, 3);
    FromThree(inner);
  }

  lemma Joined(name: string, before: string, t: string, title: string, after: string)
    ensures name + (before + t + title + "\"" + after) == name + before + t + title + "\"" + after
  {
  }

  lemma Shifted(name: string, more: string, i: nat)
    requires |name| <= i <= |name + more|
    ensures (name + more)[i..] == more[i - |name|..]
  {
  }

  /** The first title in a text from some point on, and the quote that ends it. */
  lemma TitleInside(s: string, start: string, title: string, after: string, from: nat)
    requires s == start + TITLE + title + "\"" + after && from <= |start| && '"' !in title
    requires forall i | from <= i < |start| :: !(TITLE <= s[i..])
    ensures var i := |start| + |TITLE|;
            && IndexOfFrom(s, TITLE, from) == |start|
            && IndexOf(s, '"', i) == i + |title|
            && i + |title| <= |s| && s[i..i + |title|] == title
  {
    hide *;
    var head, rest := start + TITLE + title, title + "\"" + after;
    assert s == start + TITLE + rest && s == head + ['"'] + after;
    TitleAt(start, rest, from);
    forall j | |start| + |TITLE| <= j < |head| ensures head[j] != '"' {
      assert head[j] == title[j - |start| - |TITLE|];
    }
    IndexOfPast(head, after, '"', |start| + |TITLE|);
  }

  lemma FirstSpace(name: string, more: string)
    requires |name| == 3 && (forall c | c in name :: !IsSpace(c)) && more != [] && more[0] == ' '
    ensures IndexOf(name + more, ' ', 0) == 3
  {
    NoSpace(name);
    assert name + more == name + [' '] + more[1..];
    IndexOfPast(name, more[1..], ' ', 0);
  }

  lemma FromThree(s: string)
    ensures IndexOfText(s, TITLE, 3) == IndexOfFrom(s, TITLE, 3)
  {
  }

  /** An image whose title is not closed leaves nothing. */
  lemma UnclosedVanishes(a: string, name: string, attributes: string, before: string, title: string, b: string)
    requires '<' !in a && Named(name, attributes) && SpelledAs(name, "img")
    requires Squeeze(attributes) == before + TITLE + title && '"' !in title
    requires forall i | 0 <= i < |before| :: !(TITLE <= Squeeze(attributes)[i..])
    ensures Stripped(a + "<" + (name + attributes) + ">" + b) == Stripped(a + b)
  {
    hide *;
    NothingCloses(name, attributes);
    UnclosedRewritten(name, attributes, Squeeze(attributes), before, title);
    FirstGoes(a, name + attributes, b);
    assert a + "" == a;
  }

  lemma UnclosedRewritten(name: string, attributes: string, more: string, before: string, title: string)
    requires Named(name, attributes) && SpelledAs(name, "img") && more == Squeeze(attributes)
    requires more == before + TITLE + title && '"' !in title
    requires forall i | 0 <= i < |before| :: !(TITLE <= more[i..])
    ensures Rewrite(name + attributes) == ""
  {
    hide *;
    var inner, start := name + more, name + before;
    IsImage(name, attributes);
    JoinedUnclosed(name, before, title);
    FirstSpace(name, more);
    FromThree(inner);
    forall i | 3 <= i < |start| ensures !(TITLE <= inner[i..]) {
      Shifted(name, more, i);
    }
    UnclosedInside(inner, start, title, 3);
    ImageBecomes(name, attributes, |start|, -1);
  }

  lemma JoinedUnclosed(name: string, before: string, title: string)
    ensures name + (before + TITLE + title) == name + before + TITLE + title
    ensures before + TITLE + title != []
  {
  }

  lemma UnclosedInside(s: string, start: string, title: string, from: nat)
    requires s == start + TITLE + title && from <= |start| && '"' !in title
    requires forall i | from <= i < |start| :: !(TITLE <= s[i..])
    ensures IndexOfFrom(s, TITLE, from) == |start| && IndexOf(s, '"', |start| + |TITLE|) == -1
  {
    hide *;
    TitleAt(start, title, from);
    LastPart(start + TITLE, title);
    NoSuchIndex(s, '"', |start| + |TITLE|);
  }

  lemma LastPart(a: string, b: string)
    ensures |a + b| == |a| + |b| && forall j | |a| <= j < |a + b| :: (a + b)[j] in b
  {
  }

  /** An image without a title leaves nothing. */
  lemma UntitledVanishes(a: string, name: string, attributes: string, b: string)
    requires '<' !in a && Named(name, attributes) && SpelledAs(name, "img")
    requires forall i | 0 <= i <= |Squeeze(attributes)| :: !(TITLE <= Squeeze(attributes)[i..])
    ensures Stripped(a + "<" + (name + attributes) + ">" + b) == Stripped(a + b)
  {
    hide *;
    NothingCloses(name, attributes);
    UntitledRewritten(name, attributes);
    FirstGoes(a, name + attributes, b);
    assert a + "" == a;
  }

  lemma UntitledRewritten(name: string, attributes: string)
    requires Named(name, attributes) && SpelledAs(name, "img")
    requires forall i | 0 <= i <= |Squeeze(attributes)| :: !(TITLE <= Squeeze(attributes)[i..])
    ensures Rewrite(name + attributes) == ""
  {
    hide *;
    var more := Squeeze(attributes);
    var inner := name + more;
    IsImage(name, attributes);
    NoTitleBehind(name, more);
    ImageBecomes(name, attributes, -1, -1);
  }

  /** The search starts at the first space, or, without one, at the last character. */
  lemma NoTitleBehind(name: string, more: string)
    requires |name| == 3 && (forall c | c in name :: !IsSpace(c)) && (more == [] || more[0] == ' ')
    requires forall i | 0 <= i <= |more| :: !(TITLE <= more[i..])
    ensures IndexOfText(name + more, TITLE, IndexOf(name + more, ' ', 0)) == -1
  {
    var inner := name + more;
    if more == [] {
      assert inner == name;
      NoSpace(name);
      NoSuchIndex(name, ' ', 0);
      assert forall i | 2 <= i <= 3 :: !(TITLE <= inner[i..]);
      NoTitle(inner, 2);
    } else {
      FirstSpace(name, more);
      assert forall i | 3 <= i <= |inner| :: inner[i..] == more[i - 3..];
      NoTitle(inner, 3);
    }
  }
}
