/**
  Edge label text (labeltextfactory.cpp, edgegrouppair.cpp:79-93).

  An edge label lists one line per plug edge, "from-name  ▶  to-name", where each
  name is the node's display name, a dot and the plug's name. Both names are padded
  with spaces to a common width so that the arrows of all lines sit in one column.
  The label of a pair of edge groups stacks the lines of both groups, separated by
  a centred horizontal line of the same width.

  Strings are sequences of Unicode characters. The source measures names with
  `QString::length`, which counts UTF-16 code units; `Utf16Length` does the same,
  counting two units for a character outside the Basic Multilingual Plane.
*/
module LabelText {

  /** The arrow between the two names. */
  const Arrow: string := "  \U{25B6}  "
  /** The separator between a node's display name and a plug's name. */
  const Dot: string := "."
  /** The line separator of a multi-line label. */
  const Newline: string := "\n"
  /** The character of the horizontal separator line. */
  const LineChar: char := '\U{2014}'

  /** The separator line is shorter than the label lines by at least one space per side. */
  const UnderlineShortage: nat := 1
  /** The separator line has at most this many line characters. */
  const MaxLineChars: nat := 7

  /** The display names of the nodes and the names of the plugs at both ends of an edge. */
  datatype EdgeEnds = EdgeEnds(startNode: string, startPlug: string, endNode: string, endPlug: string)

  /** The two names printed for an edge. */
  datatype NamePair = NamePair(from: string, to: string)

  function Max(a: int, b: int): int { if a < b then b else a }

  /** `n` copies of the character `c` (`QString::repeated`). */
  function Repeat(c: char, n: nat): (s: string)
    ensures |s| == n && forall i :: 0 <= i < n ==> s[i] == c
  {
    seq(n, _ => c)
  }

  function Spaces(n: nat): string { Repeat(' ', n) }

  /** `QStringList::join`: the strings with `sep` between neighbours. */
  function Join(parts: seq<string>, sep: string): string
  {
    if |parts| == 0 then ""
    else if |parts| == 1 then parts[0]
    else Join(parts[..|parts| - 1], sep) + sep + parts[|parts| - 1]
  }

  // ---------------------------------------------------------------------------
  // UTF-16 lengths
  // ---------------------------------------------------------------------------

  /** The UTF-16 code units of one character: a surrogate pair for a character outside
      the Basic Multilingual Plane, one unit otherwise. */
  function Units(c: char): nat
  {
    if c as int >= 0x1_0000 then 2 else 1
  }

  /** `QString::length`: the number of UTF-16 code units of `s`. */
  function Utf16Length(s: string): nat
  {
    if |s| == 0 then 0 else Utf16Length(s[..|s| - 1]) + Units(s[|s| - 1])
  }

  /** The length of a concatenation is the sum of the lengths. */
  lemma {:induction false} Utf16LengthAppend(a: string, b: string)
    ensures Utf16Length(a + b) == Utf16Length(a) + Utf16Length(b)
    decreases |b|
  {
    if b == [] {
      assert a + b == a;
    } else {
      var b' := b[..|b| - 1];
      assert (a + b)[..|a + b| - 1] == a + b';
      Utf16LengthAppend(a, b');
    }
  }

  /** A string inside the Basic Multilingual Plane has one unit per character. */
  lemma {:induction false} Utf16LengthBmp(s: string)
    requires forall i :: 0 <= i < |s| ==> s[i] as int < 0x1_0000
    ensures Utf16Length(s) == |s|
  {
    if s != [] {
      Utf16LengthBmp(s[..|s| - 1]);
    }
  }

  /** Padding, the arrow, the newline, the dot and the separator line are one unit per
      character. */
  lemma FixedTextUnits(n: nat)
    ensures Utf16Length(Spaces(n)) == n && Utf16Length(Repeat(LineChar, n)) == n
    ensures Utf16Length(Arrow) == |Arrow| == 5 && Utf16Length(Newline) == 1 && Utf16Length(Dot) == 1
  {
    Utf16LengthBmp(Spaces(n));
    Utf16LengthBmp(Repeat(LineChar, n));
    Utf16LengthBmp(Arrow);
    Utf16LengthBmp(Newline);
    Utf16LengthBmp(Dot);
  }

  // ---------------------------------------------------------------------------
  // The factory's names (labeltextfactory.cpp:15-29)
  // ---------------------------------------------------------------------------

  /** The printed name of a plug: its node's display name, a dot, its own name. */
  function FullName(nodeName: string, plugName: string): string
  {
    nodeName + Dot + plugName
  }

  /** A printed name splits back into the node's display name and the plug's name at
      the dot after the display name, and its length is theirs plus one. */
  lemma FullNameParts(nodeName: string, plugName: string)
    ensures var n := FullName(nodeName, plugName);
            Utf16Length(n) == Utf16Length(nodeName) + 1 + Utf16Length(plugName) &&
            |n| == |nodeName| + 1 + |plugName| &&
            n[..|nodeName|] == nodeName && n[|nodeName|] == '.' && n[|nodeName| + 1..] == plugName
  {
    FixedTextUnits(0);
    ThreeUnits(nodeName, Dot, plugName);
  }

  function NamesOf(e: EdgeEnds): NamePair
  {
    NamePair(FullName(e.startNode, e.startPlug), FullName(e.endNode, e.endPlug))
  }

  /** The UTF-16 length of the longest name in `pairs`, or 0 without pairs. */
  function Longest(pairs: seq<NamePair>): (m: nat)
    ensures forall i :: 0 <= i < |pairs| ==> Utf16Length(pairs[i].from) <= m && Utf16Length(pairs[i].to) <= m
    ensures pairs == [] ==> m == 0
    ensures pairs != [] ==>
              exists i :: 0 <= i < |pairs| && (m == Utf16Length(pairs[i].from) || m == Utf16Length(pairs[i].to))
  {
    if pairs == [] then 0
    else
      var last := pairs[|pairs| - 1];
      var before := Longest(pairs[..|pairs| - 1]);
      var m := Max(before, Max(Utf16Length(last.from), Utf16Length(last.to)));
      assert pairs[..|pairs| - 1] != [] ==>
               exists i :: 0 <= i < |pairs| - 1 &&
                 (before == Utf16Length(pairs[i].from) || before == Utf16Length(pairs[i].to));
      m
  }

  /** Appending a pair raises the longest name to that pair's longer name, if it is longer. */
  lemma LongestSnoc(pairs: seq<NamePair>, p: NamePair)
    ensures Longest(pairs + [p]) == Max(Longest(pairs), Max(Utf16Length(p.from), Utf16Length(p.to)))
  {
    assert (pairs + [p])[..|pairs|] == pairs;
  }

  /** The name pairs of `edges`, in order. */
  function Names(edges: seq<EdgeEnds>): (pairs: seq<NamePair>)
    ensures |pairs| == |edges| && forall i :: 0 <= i < |edges| ==> pairs[i] == NamesOf(edges[i])
  {
    seq(|edges|, i requires 0 <= i < |edges| => NamesOf(edges[i]))
  }

  lemma NamesSnoc(edges: seq<EdgeEnds>, i: nat)
    requires i < |edges|
    ensures Names(edges[..i + 1]) == Names(edges[..i]) + [NamesOf(edges[i])]
  {
  }

  /** A label factory: the name pairs of its edges, in the order given, and the
      longest of those names. */
  datatype Factory = Factory(namePairs: seq<NamePair>, labelCount: nat, maxNameLength: nat)

  /** `LabelTextFactory(const QSet<PlugEdge*>&)` (labeltextfactory.cpp:15-29): one
      name pair per edge; the set's iteration order is the order of `edges`. */
  method NewFactory(edges: seq<EdgeEnds>) returns (f: Factory)
    ensures f.labelCount == |edges| && |f.namePairs| == |edges|
    ensures forall i :: 0 <= i < |edges| ==> f.namePairs[i] == NamesOf(edges[i])
    ensures f.maxNameLength == Longest(f.namePairs)
    ensures f == FactoryOf(edges)
  {
    var namePairs: seq<NamePair> := [];
    var maxNameLength: nat := 0;
    for i := 0 to |edges|
      invariant |namePairs| == i
      invariant namePairs == Names(edges[..i])
      invariant maxNameLength == Longest(namePairs)
    {
      var fromName := FullName(edges[i].startNode, edges[i].startPlug);
      var toName := FullName(edges[i].endNode, edges[i].endPlug);
      LongestSnoc(namePairs, NamePair(fromName, toName));
      NamesSnoc(edges, i);
      maxNameLength := Max(maxNameLength, Max(Utf16Length(fromName), Utf16Length(toName)));
      namePairs := namePairs + [NamePair(fromName, toName)];
    }
    assert edges[..|edges|] == edges;
    f := Factory(namePairs, |edges|, maxNameLength);
  }

  // ---------------------------------------------------------------------------
  // Label lines (labeltextfactory.cpp:40-49)
  // ---------------------------------------------------------------------------

  /** One label line: the from-name right-aligned in `width` units, the arrow, and
      the to-name left-aligned in `width` units. */
  function LabelLine(p: NamePair, width: nat): string
    requires Utf16Length(p.from) <= width && Utf16Length(p.to) <= width
  {
    Spaces(width - Utf16Length(p.from)) + p.from + Arrow + p.to + Spaces(width - Utf16Length(p.to))
  }

  /** Every name of `pairs` fits in `width` UTF-16 units. */
  predicate Fits(pairs: seq<NamePair>, width: nat)
  {
    forall i :: 0 <= i < |pairs| ==> Utf16Length(pairs[i].from) <= width && Utf16Length(pairs[i].to) <= width
  }

  function Lines(pairs: seq<NamePair>, width: nat): (lines: seq<string>)
    requires Fits(pairs, width)
    ensures |lines| == |pairs|
  {
    seq(|pairs|, i requires 0 <= i < |pairs| => LabelLine(pairs[i], width))
  }

  /** `LabelTextFactory::produceLabel` (labeltextfactory.cpp:40-49): the lines of all
      edges, padded to the larger of `minWidth` and the longest name. */
  function ProduceLabel(f: Factory, minWidth: nat): string
    requires f.maxNameLength == Longest(f.namePairs)
  {
    Join(Lines(f.namePairs, Max(minWidth, f.maxNameLength)), Newline)
  }

  /** A label line is `2 * width + 5` units long, and its arrow starts at unit
      `width`, directly after the from-name and directly before the to-name. */
  lemma LabelLineLayout(p: NamePair, width: nat)
    requires Utf16Length(p.from) <= width && Utf16Length(p.to) <= width
    ensures var line := LabelLine(p, width);
            var lead := width - Utf16Length(p.from);
            var arrowAt := lead + |p.from|;
            Utf16Length(line) == 2 * width + 5 &&
            line[..lead] == Spaces(lead) &&
            line[lead..arrowAt] == p.from &&
            Utf16Length(line[..arrowAt]) == width &&
            line[arrowAt..arrowAt + |Arrow|] == Arrow &&
            line[arrowAt + |Arrow|..arrowAt + |Arrow| + |p.to|] == p.to &&
            line[arrowAt + |Arrow| + |p.to|..] == Spaces(width - Utf16Length(p.to))
  {
    LabelLineUnits(p, width);
    LabelLineSlices(p, width);
    LabelLineArrowAt(p, width);
  }

  lemma LabelLineUnits(p: NamePair, width: nat)
    requires Utf16Length(p.from) <= width && Utf16Length(p.to) <= width
    ensures Utf16Length(LabelLine(p, width)) == 2 * width + 5
  {
    var lead := width - Utf16Length(p.from);
    FixedTextUnits(lead);
    FixedTextUnits(width - Utf16Length(p.to));
    FiveUnits(Spaces(lead), p.from, Arrow, p.to, Spaces(width - Utf16Length(p.to)));
  }

  lemma LabelLineSlices(p: NamePair, width: nat)
    requires Utf16Length(p.from) <= width && Utf16Length(p.to) <= width
    ensures var line := LabelLine(p, width);
            var lead := width - Utf16Length(p.from);
            var arrowAt := lead + |p.from|;
            line[..lead] == Spaces(lead) &&
            line[lead..arrowAt] == p.from &&
            line[arrowAt..arrowAt + |Arrow|] == Arrow &&
            line[arrowAt + |Arrow|..arrowAt + |Arrow| + |p.to|] == p.to &&
            line[arrowAt + |Arrow| + |p.to|..] == Spaces(width - Utf16Length(p.to))
  {
    var lead := width - Utf16Length(p.from);
    FiveSlices(Spaces(lead), p.from, Arrow, p.to, Spaces(width - Utf16Length(p.to)));
  }

  lemma LabelLineArrowAt(p: NamePair, width: nat)
    requires Utf16Length(p.from) <= width && Utf16Length(p.to) <= width
    ensures var line := LabelLine(p, width);
            var arrowAt := width - Utf16Length(p.from) + |p.from|;
            Utf16Length(line[..arrowAt]) == width
  {
    var lead := width - Utf16Length(p.from);
    FixedTextUnits(lead);
    PrefixUnits(Spaces(lead), p.from, Arrow, p.to, Spaces(width - Utf16Length(p.to)));
  }

  /** The slices of a five-part concatenation. */
  lemma FiveSlices(a: string, b: string, c: string, d: string, e: string)
    ensures var line := a + b + c + d + e;
            var i, j, k := |a| + |b|, |a| + |b| + |c|, |a| + |b| + |c| + |d|;
            line[..|a|] == a && line[|a|..i] == b && line[..i] == a + b &&
            line[i..j] == c && line[j..k] == d && line[k..] == e
  {
  }

  /** The UTF-16 length of a three-part concatenation is the sum of the parts' lengths. */
  lemma ThreeUnits(a: string, b: string, c: string)
    ensures Utf16Length(a + b + c) == Utf16Length(a) + Utf16Length(b) + Utf16Length(c)
  {
    Utf16LengthAppend(a, b);
    Utf16LengthAppend(a + b, c);
  }

  /** The UTF-16 length of the first two parts of a five-part concatenation. */
  lemma PrefixUnits(a: string, b: string, c: string, d: string, e: string)
    ensures Utf16Length((a + b + c + d + e)[..|a| + |b|]) == Utf16Length(a) + Utf16Length(b)
  {
    FiveSlices(a, b, c, d, e);
    Utf16LengthAppend(a, b);
  }

  /** The UTF-16 length of a five-part concatenation is the sum of the parts' lengths. */
  lemma FiveUnits(a: string, b: string, c: string, d: string, e: string)
    ensures Utf16Length(a + b + c + d + e) ==
            Utf16Length(a) + Utf16Length(b) + Utf16Length(c) + Utf16Length(d) + Utf16Length(e)
  {
    Utf16LengthAppend(a, b);
    Utf16LengthAppend(a + b, c);
    Utf16LengthAppend(a + b + c, d);
    Utf16LengthAppend(a + b + c + d, e);
  }

  /** A name outside the Basic Multilingual Plane counts that character twice:
      "n.\U{1F600}" is as long as "n.ab", so a label of the two pads neither. */
  lemma SurrogatePairCountsTwice()
    ensures Utf16Length("n.\U{1F600}") == Utf16Length("n.ab") == 4
    ensures Longest([NamePair("n.\U{1F600}", "n.ab")]) == 4
    ensures LabelLine(NamePair("n.\U{1F600}", "n.ab"), 4) == "n.\U{1F600}" + Arrow + "n.ab"
  {
    Utf16LengthAppend("n.", "\U{1F600}");
    Utf16LengthAppend("n.", "ab");
    Utf16LengthBmp("n.");
    Utf16LengthBmp("ab");
    assert Utf16Length("\U{1F600}") == 2 by {
      assert "\U{1F600}"[..0] == [];
    }
    assert "n." + "\U{1F600}" == "n.\U{1F600}";
    assert "n." + "ab" == "n.ab";
    assert Spaces(0) == [];
  }

  /** The length of a join: the parts and one separator between each neighbour pair. */
  lemma {:induction false} JoinLength(parts: seq<string>, sep: string, width: nat)
    requires parts != []
    requires forall i :: 0 <= i < |parts| ==> Utf16Length(parts[i]) == width
    ensures Utf16Length(Join(parts, sep)) == |parts| * width + (|parts| - 1) * Utf16Length(sep)
  {
    if |parts| > 1 {
      var init := parts[..|parts| - 1];
      var n := |init|;
      var joined, last, u := Join(init, sep), parts[n], Utf16Length(sep);
      JoinLength(init, sep, width);
      assert Join(parts, sep) == joined + sep + last;
      ThreeUnits(joined, sep, last);
      assert Utf16Length(last) == width;
      JoinCount(n, width, u);
    }
  }

  /** One more part and one more separator. */
  lemma JoinCount(n: nat, width: nat, u: nat)
    requires n >= 1
    ensures n * width + (n - 1) * u + u + width == (n + 1) * width + n * u
  {
    assert (n + 1) * width == n * width + width;
    assert n * u == (n - 1) * u + u;
  }

  /** Joining two non-empty lists separately and then joining the results is the same
      as joining their concatenation. */
  lemma {:induction false} JoinAppend(a: seq<string>, b: seq<string>, sep: string)
    requires a != [] && b != []
    ensures Join(a + b, sep) == Join(a, sep) + sep + Join(b, sep)
    decreases |b|
  {
    var ab := a + b;
    if |b| == 1 {
      assert ab[..|ab| - 1] == a;
    } else {
      var b' := b[..|b| - 1];
      assert ab[..|ab| - 1] == a + b';
      JoinAppend(a, b', sep);
    }
  }

  /** Every line of a produced label has the same length, `2L + 5` units, where the
      padding width `L` is the larger of `minWidth` and the longest name; so a label
      of `n > 0` edges is `n * (2L + 5) + n - 1` units long. */
  lemma ProduceLabelLength(f: Factory, minWidth: nat, width: nat)
    requires f.maxNameLength == Longest(f.namePairs) && f.namePairs != []
    requires width == Max(minWidth, f.maxNameLength)
    ensures Utf16Length(ProduceLabel(f, minWidth)) == |f.namePairs| * (2 * width + 5) + (|f.namePairs| - 1)
  {
    assert Fits(f.namePairs, width);
    LinesWidth(f.namePairs, width);
    JoinedLines(Lines(f.namePairs, width), 2 * width + 5);
  }

  /** Lines of one length, joined with newlines. */
  lemma JoinedLines(lines: seq<string>, width: nat)
    requires lines != []
    requires forall i :: 0 <= i < |lines| ==> Utf16Length(lines[i]) == width
    ensures Utf16Length(Join(lines, Newline)) == |lines| * width + (|lines| - 1)
  {
    JoinLength(lines, Newline, width);
    FixedTextUnits(0);
    TimesOne(|lines| - 1, Utf16Length(Newline));
  }

  lemma TimesOne(k: int, u: int)
    requires u == 1
    ensures k * u == k
  {
  }

  // ---------------------------------------------------------------------------
  // The horizontal separator (labeltextfactory.cpp:52-76)
  // ---------------------------------------------------------------------------

  /** The number of line characters in the separator for names padded to `maxNameLength`. */
  function LineRepeats(maxNameLength: nat): (repeats: int)
  {
    var lineLength := maxNameLength * 2 + Utf16Length(Arrow);
    if MaxLineChars < lineLength - (lineLength % 2 + 1 + UnderlineShortage * 2) then MaxLineChars
    else lineLength - (lineLength % 2 + 1 + UnderlineShortage * 2)
  }

  /** `LabelTextFactory::getHorizontalLine`: the separator, centred in the width of a
      label line. Every quantity is non-negative, so C++'s truncating `/` and `%`
      agree with Dafny's. */
  function HorizontalLine(maxNameLength: nat): (line: string)
  {
    var lineLength := maxNameLength * 2 + Utf16Length(Arrow);
    var repeats := LineRepeats(maxNameLength);
    var whitespace := lineLength - repeats;
    var spacesBefore := whitespace / 2;
    FixedTextUnits(0);
    assert 1 <= repeats <= lineLength;
    Spaces(spacesBefore) + Repeat(LineChar, repeats) + Spaces(spacesBefore + whitespace % 2)
  }

  /** The separator has an odd number of line characters, at most seven; it is as
      long as a label line padded to the same width; the spaces after it are those
      before it plus the remainder of halving the whitespace, and that remainder is 0,
      so the line characters sit in the middle. */
  lemma HorizontalLineShape(maxNameLength: nat)
    ensures var repeats := LineRepeats(maxNameLength);
            var lineLength := 2 * maxNameLength + 5;
            var whitespace := lineLength - repeats;
            repeats % 2 == 1 && 1 <= repeats <= MaxLineChars &&
            repeats == (if maxNameLength < 3 then 2 * maxNameLength + 1 else MaxLineChars) &&
            whitespace % 2 == 0 &&
            HorizontalLine(maxNameLength) ==
              Spaces(whitespace / 2) + Repeat(LineChar, repeats) + Spaces(whitespace / 2 + whitespace % 2) &&
            Utf16Length(HorizontalLine(maxNameLength)) == lineLength
  {
    FixedTextUnits(0);
    HorizontalLineUnits(maxNameLength);
  }

  lemma HorizontalLineUnits(maxNameLength: nat)
    ensures Utf16Length(HorizontalLine(maxNameLength)) == 2 * maxNameLength + 5
  {
    FixedTextUnits(0);
    var repeats := LineRepeats(maxNameLength);
    assert 1 <= repeats <= 2 * maxNameLength + 5;
    var whitespace := 2 * maxNameLength + 5 - repeats;
    CentredUnits(whitespace / 2, repeats, whitespace % 2);
  }

  /** A run of line characters between `k` spaces and `k + extra` spaces. */
  lemma CentredUnits(k: nat, r: nat, extra: nat)
    ensures Utf16Length(Spaces(k) + Repeat(LineChar, r) + Spaces(k + extra)) == 2 * k + r + extra
  {
    FixedTextUnits(k);
    FixedTextUnits(r);
    FixedTextUnits(k + extra);
    ThreeUnits(Spaces(k), Repeat(LineChar, r), Spaces(k + extra));
  }

  // ---------------------------------------------------------------------------
  // The label of an edge-group pair (edgegrouppair.cpp:79-93)
  // ---------------------------------------------------------------------------

  /** `EdgeGroupPair::getLabelText`: both groups' labels padded to their common longest
      name, separated by the horizontal line. */
  function PairLabelText(firstEdges: seq<EdgeEnds>, secondEdges: seq<EdgeEnds>): string
  {
    var first := FactoryOf(firstEdges);
    var second := FactoryOf(secondEdges);
    var maxNameLength := Max(first.maxNameLength, second.maxNameLength);
    Join([ProduceLabel(first, maxNameLength), HorizontalLine(maxNameLength), ProduceLabel(second, maxNameLength)], Newline)
  }

  /** The factory `NewFactory` builds, as a value. */
  function FactoryOf(edges: seq<EdgeEnds>): (f: Factory)
    ensures f.maxNameLength == Longest(f.namePairs) && |f.namePairs| == |edges|
  {
    var pairs := Names(edges);
    Factory(pairs, |edges|, Longest(pairs))
  }

  /** Joining three strings puts the separator between each neighbour pair. */
  lemma Join3(x: string, y: string, z: string, sep: string)
    ensures Join([x, y, z], sep) == x + sep + y + sep + z
  {
    assert [x, y, z][..2] == [x, y];
    assert [x, y][..1] == [x];
    assert Join([x, y], sep) == x + sep + y;
    assert Join([x, y, z], sep) == Join([x, y], sep) + sep + z;
  }

  /** Every line of `Lines` is `2 * width + 5` units long. */
  lemma LinesWidth(pairs: seq<NamePair>, width: nat)
    requires Fits(pairs, width)
    ensures forall i :: 0 <= i < |pairs| ==> Utf16Length(Lines(pairs, width)[i]) == 2 * width + 5
  {
    forall i | 0 <= i < |pairs|
      ensures Utf16Length(Lines(pairs, width)[i]) == 2 * width + 5
    {
      LabelLineUnits(pairs[i], width);
    }
  }

  /** A pair's label joins both groups' lines and the separator, all padded to the
      pair's longest name (the groups' lines are empty strings for empty groups). */
  lemma PairLabelJoin(first: Factory, second: Factory, width: nat)
    requires first.maxNameLength == Longest(first.namePairs) && second.maxNameLength == Longest(second.namePairs)
    requires first.namePairs != [] && second.namePairs != []
    requires width == Max(first.maxNameLength, second.maxNameLength)
    ensures Join([ProduceLabel(first, width), HorizontalLine(width), ProduceLabel(second, width)], Newline) ==
            Join(Lines(first.namePairs, width) + [HorizontalLine(width)] + Lines(second.namePairs, width), Newline)
  {
    var a := Lines(first.namePairs, width);
    var h := [HorizontalLine(width)];
    var b := Lines(second.namePairs, width);
    assert ProduceLabel(first, width) == Join(a, Newline);
    assert ProduceLabel(second, width) == Join(b, Newline);
    Join3(Join(a, Newline), HorizontalLine(width), Join(b, Newline), Newline);
    JoinAppend(a, h, Newline);
    JoinAppend(a + h, b, Newline);
  }

  /** The lines of a pair's label all have the same length. */
  lemma PairLabelWidths(first: seq<NamePair>, second: seq<NamePair>, width: nat)
    requires Fits(first, width) && Fits(second, width)
    ensures var lines := Lines(first, width) + [HorizontalLine(width)] + Lines(second, width);
            forall i :: 0 <= i < |lines| ==> Utf16Length(lines[i]) == 2 * width + 5
  {
    var a := Lines(first, width);
    var b := Lines(second, width);
    LinesWidth(first, width);
    LinesWidth(second, width);
    HorizontalLineShape(width);
    var lines := a + [HorizontalLine(width)] + b;
    forall i | 0 <= i < |lines|
      ensures Utf16Length(lines[i]) == 2 * width + 5
    {
      if i < |a| {
        assert lines[i] == a[i];
      } else if i == |a| {
        assert lines[i] == HorizontalLine(width);
      } else {
        assert lines[i] == b[i - |a| - 1];
      }
    }
  }

  /** With edges in both groups, the pair's label is the lines of the first group, the
      separator and the lines of the second group, one per line, and all of them have
      the same length. */
  lemma PairLabelLines(firstEdges: seq<EdgeEnds>, secondEdges: seq<EdgeEnds>)
    requires firstEdges != [] && secondEdges != []
    ensures var first := FactoryOf(firstEdges);
            var second := FactoryOf(secondEdges);
            var width := Max(first.maxNameLength, second.maxNameLength);
            var lines := Lines(first.namePairs, width) + [HorizontalLine(width)] + Lines(second.namePairs, width);
            PairLabelText(firstEdges, secondEdges) == Join(lines, Newline) &&
            forall i :: 0 <= i < |lines| ==> Utf16Length(lines[i]) == 2 * width + 5
  {
    var first := FactoryOf(firstEdges);
    var second := FactoryOf(secondEdges);
    var width := Max(first.maxNameLength, second.maxNameLength);
    PairLabelJoin(first, second, width);
    PairLabelWidths(first.namePairs, second.namePairs, width);
  }
}
