/** The `full_text` of an article: its title, subtitle(s) and body segments
    joined by single spaces.  Scraped articles are irregular: the title may be
    null or empty, the subtitle may be a list, a single string or null, and
    body segments may hold nothing but punctuation.  Every record has the
    three keys; a null value is `None` / `SubNone` here. */
module Article {
  import opened Chars
  import opened Seqs
  import opened Wrappers
  import Tokenize

  /** The three shapes a scraped subtitle takes: a list, a string, or a
      JSON null. */
  datatype Subtitle = SubList(items: seq<string>) | SubText(text: string) | SubNone

  datatype Fields = Fields(title: Option<string>, subtitle: Subtitle, body: seq<string>)

  /** `[title] if title else []`: a null or empty title contributes
      nothing. */
  function TitlePart(title: Option<string>): (r: seq<string>)
    ensures r == [] <==> title.None? || title.value == ""
    ensures r != [] ==> r == [title.value]
  {
    match title
    case Some(t) => if t != "" then [t] else []
    case None => []
  }

  /** A list subtitle is kept as given; a non-empty string is wrapped; an
      empty or null one contributes nothing. */
  function SubtitlePart(sub: Subtitle): (r: seq<string>)
    ensures sub.SubList? ==> r == sub.items
    ensures sub.SubText? ==> r == (if sub.text != "" then [sub.text] else [])
    ensures sub.SubNone? ==> r == []
  {
    match sub
    case SubList(items) => items
    case SubText(t) => if t != "" then [t] else []
    case SubNone => []
  }

  /** A non-empty string subtitle gives the same full text as a one-item
      list holding it; an empty string subtitle gives the same as a null one
      or an empty list. */
  lemma SubtitleShapes(title: Option<string>, t: string, body: seq<string>)
    ensures t != "" ==> FullText(Fields(title, SubText(t), body)) == FullText(Fields(title, SubList([t]), body))
    ensures t == "" ==> FullText(Fields(title, SubText(t), body)) == FullText(Fields(title, SubNone, body))
    ensures FullText(Fields(title, SubNone, body)) == FullText(Fields(title, SubList([]), body))
  {
  }

  /** A body segment is kept when removing everything but word characters
      and whitespace leaves something. */
  predicate KeepSegment(t: string) {
    Tokenize.StripPunctuation(t) != []
  }

  /** The pieces of the full text, in order. */
  function Parts(a: Fields): seq<string> {
    TitlePart(a.title) + SubtitlePart(a.subtitle) + Filter(a.body, KeepSegment)
  }

  function FullText(a: Fields): string {
    Join(Parts(a), ' ')
  }

  /** A segment is kept exactly when it holds a word character or a
      whitespace character: a whitespace-only segment is kept, a
      punctuation-only or empty one is dropped. */
  lemma KeepSegmentIff(t: string)
    ensures KeepSegment(t) <==> exists i :: 0 <= i < |t| && IsWordOrSpace(t[i])
  {
    if exists i :: 0 <= i < |t| && IsWordOrSpace(t[i]) {
      var i :| 0 <= i < |t| && IsWordOrSpace(t[i]);
      FilterKeeps(t, IsWordOrSpace, t[i]);
    } else {
      FilterNone(t, IsWordOrSpace);
    }
  }

  /** The body segments of the full text are the kept ones, in order. */
  lemma BodySegments(a: Fields)
    ensures |Parts(a)| == |TitlePart(a.title)| + |SubtitlePart(a.subtitle)| + |Filter(a.body, KeepSegment)|
    ensures forall k :: |TitlePart(a.title)| + |SubtitlePart(a.subtitle)| <= k < |Parts(a)| ==>
      KeepSegment(Parts(a)[k]) && Parts(a)[k] in a.body
    ensures forall t :: t in a.body && KeepSegment(t) ==> t in Parts(a)
  {
    var front := TitlePart(a.title) + SubtitlePart(a.subtitle);
    var kept := Filter(a.body, KeepSegment);
    forall k | |front| <= k < |Parts(a)| ensures KeepSegment(Parts(a)[k]) && Parts(a)[k] in a.body {
      assert Parts(a)[k] == kept[k - |front|];
      FilterMember(a.body, KeepSegment, k - |front|);
    }
    forall t | t in a.body && KeepSegment(t) ensures t in Parts(a) {
      FilterKeeps(a.body, KeepSegment, t);
      var j :| 0 <= j < |kept| && kept[j] == t;
      assert Parts(a)[|front| + j] == t;
    }
  }

  /** The full text is the pieces with one space between each two: its
      length is their total length plus the separating spaces. */
  lemma FullTextLength(a: Fields)
    ensures |FullText(a)| == |Flatten(Parts(a))| + (if Parts(a) == [] then 0 else |Parts(a)| - 1)
  {
    JoinLength(Parts(a), ' ');
  }

  /** Splitting the full text at spaces gives the pieces back when none of
      them contains a space. */
  lemma FullTextSplitsBack(a: Fields)
    requires Parts(a) != []
    requires forall k :: 0 <= k < |Parts(a)| ==> ' ' !in Parts(a)[k]
    ensures Split(FullText(a), IsBlank) == Parts(a)
  {
    forall k | 0 <= k < |Parts(a)| ensures FreeOf(Parts(a)[k], IsBlank) {
    }
    SplitJoin(Parts(a), ' ', IsBlank);
  }

  predicate IsBlank(c: char) { c == ' ' }

  /** The full text starts with a present title. */
  lemma FullTextStartsWithTitle(a: Fields)
    requires a.title.Some? && a.title.value != ""
    ensures a.title.value <= FullText(a)
  {
    JoinFirst(Parts(a), ' ');
  }

  /** `x.join(ps)` begins with the first piece. */
  lemma {:induction false} JoinFirst(ps: seq<string>, x: char)
    requires ps != []
    ensures ps[0] <= Join(ps, x)
    decreases |ps|
  {
    if |ps| > 1 {
      JoinFirst(DropLast(ps), x);
      assert DropLast(ps)[0] == ps[0];
    }
  }

  /** A segment with a word character is kept. */
  lemma WordSegmentKept()
    ensures KeepSegment("D.")
  {
    KeepSegmentIff("D.");
    assert IsWordOrSpace("D."[0]);
  }

  /** A whitespace-only segment is kept. */
  lemma BlankSegmentKept()
    ensures KeepSegment("  ")
  {
    KeepSegmentIff("  ");
    assert IsWordOrSpace("  "[0]);
  }

  /** A punctuation-only segment is dropped. */
  lemma PunctuationSegmentDropped()
    ensures !KeepSegment("!!")
  {
    KeepSegmentIff("!!");
  }

  /** Filtering three segments of which the first two are kept. */
  lemma KeptOfThree(a: string, b: string, c: string)
    requires KeepSegment(a) && KeepSegment(b) && !KeepSegment(c)
    ensures Filter([a, b, c], KeepSegment) == [a, b]
  {
    assert DropLast([a]) == [] && Last([a]) == a;
    assert Filter([a], KeepSegment) == [a];
    assert DropLast([a, b]) == [a] && Last([a, b]) == b;
    assert Filter([a, b], KeepSegment) == [a, b];
    assert DropLast([a, b, c]) == [a, b] && Last([a, b, c]) == c;
  }

  /** An example with every kind of piece: the title, a one-item subtitle
      list, a segment with a word, a whitespace-only segment (kept) and a
      punctuation-only one (dropped). */
  lemma ExampleParts()
    ensures Parts(Fields(Some("A B"), SubList(["C"]), ["D.", "  ", "!!"])) == ["A B", "C", "D.", "  "]
  {
    WordSegmentKept();
    BlankSegmentKept();
    PunctuationSegmentDropped();
    KeptOfThree("D.", "  ", "!!");
    assert TitlePart(Some("A B")) + SubtitlePart(SubList(["C"])) == ["A B", "C"];
  }

  /** Its full text ends in three spaces: the separator and the kept
      segment's two. */
  lemma ExampleFullText()
    ensures FullText(Fields(Some("A B"), SubList(["C"]), ["D.", "  ", "!!"])) == "A B C D.   "
  {
    ExampleParts();
    var ps := ["A B", "C", "D.", "  "];
    assert Join(["A B"], ' ') == "A B";
    assert Join(["A B", "C"], ' ') == "A B C" by {
      assert DropLast(["A B", "C"]) == ["A B"];
    }
    assert Join(["A B", "C", "D."], ' ') == "A B C D." by {
      assert DropLast(["A B", "C", "D."]) == ["A B", "C"];
    }
    assert Join(ps, ' ') == "A B C D.   " by {
      assert DropLast(ps) == ["A B", "C", "D."];
    }
  }
}
