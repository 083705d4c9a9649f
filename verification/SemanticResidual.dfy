/**
 What is left of a semantic query (app/query/semantic_filters.py): `str.strip` takes
 more than the scanner's whitespace off the ends of the prose, so a word may lose its
 edge, and what is left of it may read as another token. When the residual is the
 prose, and when splitting it again changes nothing.
 */
module SemanticResidual {
  import opened Wrappers
  import opened QueryAst
  import opened Scanner
  import opened ScanLocality
  import opened Lexemes
  import opened PythonText
  import opened SemanticFilters

  // ------------------------------------------------------------------ prose

  /** A token that is neither a filter nor unsupported: a parenthesis, an OR or a word. */
  predicate IsProse(x: Shape) {
    FieldOf(x.0).None? && Unsupported(x.0).None?
  }

  /** Text that scans to prose alone. */
  predicate Clean(s: string) {
    Shapes(s).Some? && forall x <- Shapes(s).value :: IsProse(x)
  }

  /** The characters in the tokens' values. */
  function Weight(shapes: seq<Shape>): nat
    decreases |shapes|
  {
    if shapes == [] then 0 else |shapes[0].1| + Weight(shapes[1..])
  }

  lemma {:induction false} WeightConcat(a: seq<Shape>, b: seq<Shape>)
    ensures Weight(a + b) == Weight(a) + Weight(b)
    decreases |a|
  {
    if a == [] {
      assert a + b == b;
    } else {
      WeightConcat(a[1..], b);
      assert (a + b)[1..] == a[1..] + b;
    }
  }

  lemma ShapesCons(s: string)
    requires s != "" && !IsSpace(s[0]) && NextLexeme(s).Ok?
    ensures var l := NextLexeme(s).value;
      && (Clean(s) <==> IsProse((l.kind, l.value)) && Clean(s[l.length..]))
      && (Clean(s) ==> Shapes(s) == Some([(l.kind, l.value)] + Shapes(s[l.length..]).value))
      && (Clean(s) ==> Weight(Shapes(s).value) == |l.value| + Weight(Shapes(s[l.length..]).value))
  {
    hide NextLexeme, FieldOf, Unsupported;
    var l := NextLexeme(s).value;
    var rest := Shapes(s[l.length..]);
    if rest.Some? {
      var all := [(l.kind, l.value)] + rest.value;
      assert Shapes(s) == Some(all) && all[0] == (l.kind, l.value) && all[1..] == rest.value;
      assert forall x <- rest.value :: x in all;
    }
  }

  lemma ShapesAtSpace(c: char, s: string)
    requires IsSpace(c)
    ensures Shapes([c] + s) == Shapes(s)
  {
    assert ([c] + s)[1..] == s;
  }

  /** Does the text read as a bare word first? */
  predicate StartsBare(s: string) {
    s != "" && !IsStop(s[0]) && s[0] != '/' && s[0] != '"' && !Negates(s) && !HasField(s)
  }

  lemma BareFirst(s: string)
    requires StartsBare(s)
    ensures NextLexeme(s) == Ok(BareLexeme(s)) && IsProse((BareLexeme(s).kind, BareLexeme(s).value))
    ensures BareLexeme(s).length == BareLength(s) == |BareLexeme(s).value| > 0
  {
    BareLexemeLength(s);
  }

  /** Only a bare word can end in whitespace that is Python's alone. */
  lemma EndsInSpace(s: string)
    requires s != "" && !IsSpace(s[0]) && NextLexeme(s).Ok? && IsProse((NextLexeme(s).value.kind, NextLexeme(s).value.value))
    requires IsPythonSpace(s[NextLexeme(s).value.length - 1])
    ensures StartsBare(s) && NextLexeme(s) == Ok(BareLexeme(s))
  {
    hide ReadFieldValue, KnownField, Lowered, PrefixLength, BareLength;
  }

  // ------------------------------------------------------------------ one character off an end

  /** Text without its last character, when that is whitespace to Python, is still prose. */
  lemma {:induction false} TrailingSpace(s: string, c: char)
    requires IsPythonSpace(c) && Clean(s + [c])
    ensures Clean(s)
    ensures IsSpace(c) ==> Shapes(s) == Shapes(s + [c])
    ensures !IsSpace(c) ==> Weight(Shapes(s).value) + 1 == Weight(Shapes(s + [c]).value)
    decreases |s|
  {
    var t := s + [c];
    if IsSpace(c) {
      ShapesIgnoreTrailingSpace(s, c);
    } else if s == "" {
      WordLosesEnd(s, c);
    } else if IsSpace(s[0]) {
      assert t[1..] == s[1..] + [c];
      TrailingSpace(s[1..], c);
    } else {
      var l := NextLexeme(t).value;
      ShapesCons(t);
      hide NextLexeme, IsPythonSpace, Clean;
      if l.length == |t| {
        LastWordLosesEnd(s, c);
      } else {
        assert s == t[..l.length] + s[l.length..];
        LexemeStays(t, l, s[l.length..]);
        assert t[l.length..] == s[l.length..] + [c];
        TrailingSpace(s[l.length..], c);
        ShapesCons(s);
      }
    }
  }

  lemma LexemeStays(t: string, l: Lexeme, tail: string)
    requires t != "" && !IsSpace(t[0]) && NextLexeme(t) == Ok(l) && l.kind != NOT && l.length < |t|
    requires tail == "" || tail[0] == t[l.length]
    ensures NextLexeme(t[..l.length] + tail) == Ok(l)
  {
    LexemeIsLocal(t, tail);
  }

  lemma LastWordLosesEnd(s: string, c: char)
    requires s != "" && !IsSpace(s[0]) && IsPythonSpace(c) && !IsSpace(c) && Clean(s + [c])
    requires NextLexeme(s + [c]).Ok? && NextLexeme(s + [c]).value.length == |s| + 1
    ensures Clean(s) && Weight(Shapes(s).value) + 1 == Weight(Shapes(s + [c]).value)
  {
    var t := s + [c];
    ShapesCons(t);
    EndsInSpace(t);
    hide NextLexeme, IsPythonSpace, Clean;
    WordLosesEnd(s, c);
  }

  /** The case of one bare word. */
  lemma WordLosesEnd(s: string, c: char)
    requires StartsBare(s + [c]) && BareLength(s + [c]) == |s| + 1
    ensures Clean(s) && Clean(s + [c]) && Weight(Shapes(s).value) + 1 == Weight(Shapes(s + [c]).value)
  {
    var t := s + [c];
    hide StartsBare, Clean, Weight;
    OneWord(t);
    if s != "" {
      ShorterWordIsBare(s, c);
      hide BareLength, Shapes;
      OneWord(s);
    } else {
      NoWord();
    }
  }

  lemma NoWord()
    ensures Clean("") && Weight(Shapes("").value) == 0
  {
  }

  lemma OneWord(s: string)
    requires StartsBare(s) && BareLength(s) == |s|
    ensures Clean(s) && Weight(Shapes(s).value) == |s|
  {
    BareFirst(s);
    hide NextLexeme, StartsBare, BareLexeme;
    assert s[|s|..] == "";
    ShapesCons(s);
  }

  lemma ShorterWordIsBare(s: string, c: char)
    requires s != "" && StartsBare(s + [c]) && BareLength(s + [c]) == |s| + 1
    ensures StartsBare(s) && BareLength(s) == |s|
  {
    hide HasField, BareLength, IsStop, IsSpace;
    var t := s + [c];
    assert t[0] == s[0];
    FieldStays(s, [c]);
    assert Negates(s) ==> Negates(t);
    BareLengthIs(s, |s|) by {
      assert forall i | 0 <= i < |s| :: s[i] == t[i];
    }
  }

  lemma FieldStays(s: string, tail: string)
    ensures HasField(s) ==> HasField(s + tail)
  {
    var k := PrefixLength(s);
    if k < |s| {
      var t := s + tail;
      PrefixLengthIs(t, k) by {
        assert forall i | 0 <= i <= k :: t[i] == s[i];
      }
      assert t[..k] == s[..k];
    }
  }

  /** What a text opens, other than a bare word or a parenthesis. */
  predicate Opens(s: string) {
    s != "" && (s[0] == '/' || s[0] == '"' || Negates(s) || HasField(s))
  }

  /** Text without a first character that is whitespace to Python is still prose, unless it opens something. */
  lemma LeadingSpace(c: char, s: string)
    requires IsPythonSpace(c) && Clean([c] + s)
    requires IsSpace(c) || s == "" || IsPythonSpace(s[0]) || !Opens(s)
    ensures Clean(s)
    ensures IsSpace(c) ==> Shapes(s) == Shapes([c] + s)
    ensures !IsSpace(c) ==> Weight(Shapes(s).value) + 1 == Weight(Shapes([c] + s).value)
  {
    var t := [c] + s;
    if IsSpace(c) {
      ShapesAtSpace(c, s);
    } else {
      SpaceStartsBare(t);
      BareFirst(t);
      BareLengthIs(t, 1 + BareLength(s)) by {
        assert forall i | 1 <= i < |t| :: t[i] == s[i - 1];
      }
      var n := BareLength(s);
      assert t[n + 1..] == s[n..];
      hide NextLexeme, BareLexeme, IsPythonSpace, Clean, Opens, StartsBare;
      ShapesCons(t);
      if n == 0 {
        assert s[0..] == s;
      } else {
        StartsBareUnlessOpen(s);
        BareFirst(s);
        ShapesCons(s);
      }
    }
  }

  lemma SpaceStartsBare(t: string)
    requires t != "" && IsPythonSpace(t[0]) && !IsSpace(t[0])
    ensures StartsBare(t)
  {
    PrefixLengthIs(t, 0);
  }

  lemma StartsBareUnlessOpen(s: string)
    requires s != "" && BareLength(s) > 0 && (IsPythonSpace(s[0]) || !Opens(s))
    ensures StartsBare(s)
  {
    if IsPythonSpace(s[0]) {
      SpaceStartsBare(s);
    }
  }

  /** Text that opens a regex, a negation or a field is no prose, whatever follows at a distance. */
  lemma OpenIsNotClean(s: string, tail: string)
    requires Opens(s) && s[0] != '"' && !IsSpace(s[0]) && Apart(tail)
    ensures !Clean(s + tail)
  {
    var t := s + tail;
    assert t[0] == s[0];
    if HasField(s) {
      FieldStays(s, tail);
      FieldIsNoProse(t);
    } else {
      hide ReadLiteral, HasField, KnownField;
      if NextLexeme(t).Ok? {
        assert NextLexeme(t).value.kind in {REGEX, NOT};
        hide NextLexeme;
        ShapesCons(t);
      }
    }
  }

  lemma FieldIsNoProse(t: string)
    requires HasField(t)
    ensures !Clean(t)
  {
    FieldIsNext(t);
    hide NextLexeme, FieldLexeme, HasField, Clean;
    if NextLexeme(t).Ok? {
      FieldKind(t);
      ShapesCons(t);
    } else {
      RefusedIsNotClean(t);
    }
  }

  lemma FieldIsNext(t: string)
    requires HasField(t)
    ensures t != "" && !IsSpace(t[0]) && NextLexeme(t) == FieldLexeme(t)
  {
    assert IsLower(t[0]);
    hide FieldLexeme, KnownField, PrefixLength;
  }

  lemma FieldKind(t: string)
    requires HasField(t) && FieldLexeme(t).Ok?
    ensures FieldLexeme(t).value.kind == CASE || FieldOf(FieldLexeme(t).value.kind).Some?
  {
    hide ReadFieldValue, KnownField, PrefixLength;
  }

  lemma RefusedIsNotClean(t: string)
    requires t != "" && !IsSpace(t[0]) && NextLexeme(t).Err?
    ensures !Clean(t)
  {
    hide NextLexeme;
  }

  // ------------------------------------------------------------------ the strip

  lemma {:induction false} StripRightOfSpace(c: char, s: string)
    requires IsPythonSpace(c) && StripRight(s) == ""
    ensures StripRight([c] + s) == ""
    decreases |s|
  {
    var t := [c] + s;
    if s == "" {
      assert t[..0] == "";
    } else {
      assert t[..|t| - 1] == [c] + s[..|s| - 1];
      StripRightOfSpace(c, s[..|s| - 1]);
    }
  }

  lemma {:induction false} StripRightBehind(c: char, s: string)
    requires StripRight(s) != ""
    ensures StripRight([c] + s) == [c] + StripRight(s)
    decreases |s|
  {
    var t := [c] + s;
    if IsPythonSpace(s[|s| - 1]) {
      assert t[..|t| - 1] == [c] + s[..|s| - 1];
      StripRightBehind(c, s[..|s| - 1]);
    }
  }

  /** Both ends can be stripped in either order. */
  lemma {:induction false} StripCommutes(s: string)
    ensures Strip(s) == StripLeft(StripRight(s))
    decreases |s|
  {
    if s != "" && IsPythonSpace(s[0]) {
      StripCommutes(s[1..]);
      assert s == [s[0]] + s[1..];
      if StripRight(s[1..]) == "" {
        StripRightOfSpace(s[0], s[1..]);
      } else {
        StripRightBehind(s[0], s[1..]);
        assert ([s[0]] + StripRight(s[1..]))[1..] == StripRight(s[1..]);
      }
    } else {
      StripRightKeepsHead(s);
    }
  }

  lemma {:induction false} StripRightKeepsHead(s: string)
    requires s == "" || !IsPythonSpace(s[0])
    ensures StripLeft(StripRight(s)) == StripRight(s)
    ensures StripRight(s) <= s
    decreases |s|
  {
    if s != "" && IsPythonSpace(s[|s| - 1]) {
      StripRightKeepsHead(s[..|s| - 1]);
    }
  }

  /** Characters of words that stripping the right end takes. */
  function LostRight(s: string): nat
    decreases |s|
  {
    if s != "" && IsPythonSpace(s[|s| - 1]) then
      LostRight(s[..|s| - 1]) + if IsSpace(s[|s| - 1]) then 0 else 1
    else 0
  }

  function LostLeft(s: string): nat
    decreases |s|
  {
    if s != "" && IsPythonSpace(s[0]) then LostLeft(s[1..]) + if IsSpace(s[0]) then 0 else 1 else 0
  }

  /** Characters of words that `str.strip` takes off the ends of a piece. */
  function Lost(piece: string): nat {
    LostRight(piece) + LostLeft(StripRight(piece))
  }

  /** Stripping the left end takes the front off a word, and the rest of the word opens something else. */
  predicate BaresLeft(s: string)
    decreases |s|
  {
    |s| > 1 && IsPythonSpace(s[0]) &&
    if IsPythonSpace(s[1]) then BaresLeft(s[1..]) else !IsSpace(s[0]) && Opens(s[1..])
  }

  /**
   The stripped piece directly follows whitespace that is Python's alone, and starts
   like a field, a regex, a quote or a negation.
   */
  predicate Bared(piece: string) {
    BaresLeft(StripRight(piece))
  }

  /** The same, and it is a quote that starts. */
  predicate BaresQuote(piece: string) {
    Bared(piece) && Strip(piece) != "" && Strip(piece)[0] == '"'
  }

  lemma {:induction false} StripRightStaysClean(s: string)
    requires Clean(s)
    ensures Clean(StripRight(s))
    ensures LostRight(s) == 0 ==> Shapes(StripRight(s)) == Shapes(s)
    ensures Weight(Shapes(StripRight(s)).value) + LostRight(s) == Weight(Shapes(s).value)
    decreases |s|
  {
    hide Clean, Shapes, IsPythonSpace, Weight, IsSpace;
    if s != "" && IsPythonSpace(s[|s| - 1]) {
      var front, c := s[..|s| - 1], s[|s| - 1];
      assert s == front + [c];
      TrailingSpace(front, c);
      StripRightStaysClean(front);
    }
  }

  lemma {:induction false} StripLeftStaysClean(s: string)
    requires Clean(s) && !BaresLeft(s)
    ensures Clean(StripLeft(s))
    ensures LostLeft(s) == 0 ==> Shapes(StripLeft(s)) == Shapes(s)
    ensures Weight(Shapes(StripLeft(s)).value) + LostLeft(s) == Weight(Shapes(s).value)
    decreases |s|
  {
    hide Clean, Shapes, IsPythonSpace, Weight, IsSpace, Opens;
    if s != "" && IsPythonSpace(s[0]) {
      assert s == [s[0]] + s[1..];
      LeadingSpace(s[0], s[1..]);
      NotBaredLater(s);
      StripLeftStaysClean(s[1..]);
    }
  }

  lemma NotBaredLater(s: string)
    requires s != "" && IsPythonSpace(s[0]) && !BaresLeft(s)
    ensures !BaresLeft(s[1..])
  {
  }

  /** A piece of prose stays prose when stripped, unless that bares something; its words lose what is stripped. */
  lemma StripStaysClean(piece: string)
    requires Clean(piece) && !Bared(piece)
    ensures Clean(Strip(piece))
    ensures Lost(piece) == 0 ==> Shapes(Strip(piece)) == Shapes(piece)
    ensures Weight(Shapes(Strip(piece)).value) + Lost(piece) == Weight(Shapes(piece).value)
  {
    hide Clean, Shapes, Weight;
    StripCommutes(piece);
    StripRightStaysClean(piece);
    StripLeftStaysClean(StripRight(piece));
  }

  lemma {:induction false} BaredStripOpens(s: string)
    requires BaresLeft(s)
    ensures Opens(StripLeft(s)) && !IsPythonSpace(StripLeft(s)[0])
    decreases |s|
  {
    hide Opens, IsPythonSpace;
    if IsPythonSpace(s[1]) {
      BaredStripOpens(s[1..]);
    } else {
      assert StripLeft(s) == StripLeft(s[1..]) == s[1..];
    }
  }

  // ------------------------------------------------------------------ joining the pieces

  /** Text without whitespace at its ends. */
  predicate Trim(s: string) {
    s != "" ==> !IsPythonSpace(s[0]) && !IsPythonSpace(s[|s| - 1])
  }

  lemma {:induction false} StripIsTrim(s: string)
    ensures Trim(Strip(s))
  {
    hide IsPythonSpace;
    StripLeftEnds(s);
    StripRightEnds(StripLeft(s));
  }

  lemma {:induction false} StripLeftEnds(s: string)
    ensures StripLeft(s) != "" ==> !IsPythonSpace(StripLeft(s)[0])
    decreases |s|
  {
    if s != "" && IsPythonSpace(s[0]) {
      StripLeftEnds(s[1..]);
    }
  }

  lemma {:induction false} StripRightEnds(s: string)
    ensures StripRight(s) != "" ==> StripRight(s)[0] == s[0] && !IsPythonSpace(StripRight(s)[|StripRight(s)| - 1])
    ensures s == "" ==> StripRight(s) == ""
    decreases |s|
  {
    if s != "" && IsPythonSpace(s[|s| - 1]) {
      StripRightEnds(s[..|s| - 1]);
    }
  }

  lemma JoinedTailStartsApart(pieces: seq<string>)
    ensures Apart(JoinedTail(pieces))
  {
  }

  lemma JoinedTailIs(pieces: seq<string>)
    ensures JoinedTail(pieces) == if pieces == [] then "" else " " + Joined(pieces)
  {
    assert pieces != [] ==> " " + pieces[0] + JoinedTail(pieces[1..]) == " " + (pieces[0] + JoinedTail(pieces[1..]));
  }

  lemma TrimJoin(text: string, tail: seq<string>)
    requires text != "" && Trim(text) && Trim(Joined(tail)) && forall p <- tail :: p != ""
    ensures Trim(text + JoinedTail(tail))
  {
    hide IsPythonSpace;
    JoinedTailIs(tail);
    if tail != [] {
      assert tail[0] in tail && Joined(tail) != "";
    }
  }

  lemma {:induction false} JoinIsTrim(pieces: seq<string>)
    requires forall p <- pieces :: p != "" && Trim(p)
    ensures Trim(Joined(pieces))
    decreases |pieces|
  {
    hide Trim;
    if pieces == [] {
      NothingIsTrim();
    } else {
      assert pieces[0] in pieces && forall p <- pieces[1..] :: p in pieces;
      JoinIsTrim(pieces[1..]);
      TrimJoin(pieces[0], pieces[1..]);
    }
  }

  lemma NothingIsTrim()
    ensures Trim("")
  {
  }

  lemma {:induction false} StrippedAre(texts: seq<string>)
    ensures forall p <- Stripped(texts) :: p != "" && Trim(p)
    decreases |texts|
  {
    hide Trim, Strip;
    if texts != [] {
      StripIsTrim(texts[0]);
      StrippedAre(texts[1..]);
    }
  }

  /** In front of joined pieces, a text of prose decides with them. */
  lemma CleanInFront(text: string, tail: seq<string>)
    requires Clean(text)
    ensures Clean(text + JoinedTail(tail)) <==> Clean(Joined(tail))
    ensures Clean(Joined(tail)) ==>
      Shapes(text + JoinedTail(tail)) == Some(Shapes(text).value + Shapes(Joined(tail)).value)
  {
    hide NextLexeme, FieldOf, Unsupported;
    JoinedTailStartsApart(tail);
    ShapesConcat(text, JoinedTail(tail));
    JoinedTailIs(tail);
    SpaceInFront(Joined(tail));
    hide Shapes;
    if Shapes(Joined(tail)).Some? {
      var all := Shapes(text).value + Shapes(Joined(tail)).value;
      assert forall x <- Shapes(Joined(tail)).value :: x in all;
    }
  }

  // ------------------------------------------------------------------ the residual of a query

  lemma ResidualIs(query: string)
    requires Split(query).Ok?
    ensures Split(query).value.residual == Joined(Stripped(Texts(Segments(query))))
    ensures Trim(Split(query).value.residual)
  {
    assert query[0..] == query && query[0..0] == "";
    hide Shapes, Scan, FirstUnsupported, ValuesOf, Joined, Stripped;
    PiecesAreSegments(query, 0, 0);
    WidenNothing(Segments(query));
    StrippedAre(Texts(Segments(query)));
    JoinIsTrim(Stripped(Texts(Segments(query))));
  }

  lemma NoNegation(spans: seq<Spanned>, shapes: seq<Shape>)
    requires HasShapes(spans, shapes) && FirstUnsupported(spans) == None
    ensures forall x <- shapes :: x.0 != NOT && Unsupported(x.0).None?
  {
    forall i | 0 <= i < |spans|
      ensures Unsupported(spans[i].token.kind).None?
    {
      NoneUnsupported(spans, i);
    }
  }

  lemma {:induction false} NoneUnsupported(spans: seq<Spanned>, i: nat)
    requires FirstUnsupported(spans) == None && i < |spans|
    ensures Unsupported(spans[i].token.kind).None?
    decreases |spans|
  {
    if i > 0 {
      NoneUnsupported(spans[1..], i - 1);
    }
  }

  lemma {:induction false} ProseHasNoFilter(shapes: seq<Shape>)
    ensures forall x <- Prose(shapes) :: FieldOf(x.0).None? && x in shapes
    decreases |shapes|
  {
    if shapes != [] {
      ProseHasNoFilter(shapes[1..]);
    }
  }

  lemma {:induction false} ShapeIsOfAll(segments: seq<Segment>, g: Segment, x: Shape)
    requires g in segments && x in g.shape
    ensures x in ShapeOfAll(segments)
    decreases |segments|
  {
    if segments[0] != g {
      ShapeIsOfAll(segments[1..], g, x);
    }
  }

  /** The pieces of a query that splits hold prose, all of it. */
  lemma SegmentsAreClean(query: string)
    requires Split(query).Ok?
    ensures Shapes(query).Some? && ShapeOfAll(Segments(query)) == Prose(Shapes(query).value)
    ensures forall g <- Segments(query) :: Scans(g) && Clean(g.text)
  {
    ScanHasShapes(query, 0);
    var spans, shapes := Scan(query, 0).value, Shapes(query).value;
    NoNegation(spans, shapes);
    hide Shapes, Scan, FirstUnsupported, ValuesOf, CutsOf, Excised, FieldOf, Unsupported;
    SegmentsScan(query);
    ProseHasNoFilter(shapes);
    forall g | g in Segments(query)
      ensures Clean(g.text)
    {
      forall x | x in g.shape
        ensures IsProse(x)
      {
        ShapeIsOfAll(Segments(query), g, x);
      }
    }
  }

  /** Characters of words that the split takes off the ends of the pieces. */
  function LostOfAll(segments: seq<Segment>): nat
    decreases |segments|
  {
    if segments == [] then 0 else Lost(segments[0].text) + LostOfAll(segments[1..])
  }

  predicate NoneBared(segments: seq<Segment>) {
    forall g <- segments :: !Bared(g.text)
  }

  /** While stripping bares nothing, the residual is prose, and shorter than the query's by what the words lose. */
  lemma {:induction false} JoinedStaysClean(segments: seq<Segment>)
    requires NoneBared(segments) && forall g <- segments :: Scans(g) && Clean(g.text)
    ensures var residual := Joined(Stripped(Texts(segments)));
      && Clean(residual)
      && Weight(Shapes(residual).value) + LostOfAll(segments) == Weight(ShapeOfAll(segments))
      && (LostOfAll(segments) == 0 ==> Shapes(residual) == Some(ShapeOfAll(segments)))
    decreases |segments|
  {
    if segments == [] {
      NoWord();
    } else {
      var g, rest := segments[0], segments[1..];
      var text, tail := Strip(g.text), Stripped(Texts(rest));
      assert g in segments && forall h <- rest :: h in segments;
      assert Texts(segments)[1..] == Texts(rest);
      JoinedStaysClean(rest);
      StripStaysClean(g.text);
      hide NextLexeme, Strip, Clean, Bared, Shapes, Weight, Lost;
      WeightConcat(g.shape, ShapeOfAll(rest));
      if text == "" {
        NoWord();
        assert [] + tail == tail;
        OfNothing(g.shape, ShapeOfAll(rest));
      } else {
        assert ([text] + tail)[1..] == tail;
        CleanInFront(text, tail);
        WeightConcat(Shapes(text).value, Shapes(Joined(tail)).value);
      }
    }
  }

  lemma OfNothing(shape: seq<Shape>, more: seq<Shape>)
    ensures Shapes("") == Some([]) && Weight([]) == 0
    ensures shape == [] ==> shape + more == more
  {
  }

  /** The first piece that bares anything bares no quote; what a quote does depends on where it is closed. */
  predicate BaresNoQuoteFirst(segments: seq<Segment>)
    decreases |segments|
  {
    segments != [] ==>
      if Bared(segments[0].text) then !BaresQuote(segments[0].text) else BaresNoQuoteFirst(segments[1..])
  }

  /** The first piece that bares a regex, a negation or a field spoils the residual. */
  lemma {:induction false} BaredIsNotClean(segments: seq<Segment>)
    requires !NoneBared(segments) && BaresNoQuoteFirst(segments) && forall g <- segments :: Clean(g.text)
    ensures !Clean(Joined(Stripped(Texts(segments))))
    decreases |segments|
  {
    hide NextLexeme, Shapes, Strip, StripRight, IsPythonSpace, Opens, FieldOf, Unsupported;
    var g, rest := segments[0], segments[1..];
    var text, tail := Strip(g.text), Stripped(Texts(rest));
    assert g in segments && forall h <- rest :: h in segments;
    assert segments == [g] + rest;
    assert Texts(segments)[1..] == Texts(rest);
    hide Clean;
    if Bared(g.text) {
      BaredText(g.text);
      hide Bared;
      assert ([text] + tail)[1..] == tail;
      JoinedTailStartsApart(tail);
      OpenIsNotClean(text, JoinedTail(tail));
    } else {
      StripStaysClean(g.text);
      BaredIsNotClean(rest);
      hide Bared;
      if text == "" {
        assert [] + tail == tail;
      } else {
        assert ([text] + tail)[1..] == tail;
        CleanInFront(text, tail);
      }
    }
  }

  lemma BaredText(piece: string)
    requires Bared(piece)
    ensures Opens(Strip(piece)) && Strip(piece) != "" && !IsSpace(Strip(piece)[0])
  {
    hide Opens, Strip;
    StripCommutes(piece);
    BaredStripOpens(StripRight(piece));
    assert StripLeft(StripRight(piece)) != "" by {
      OpensSomething(StripLeft(StripRight(piece)));
    }
  }

  lemma OpensSomething(s: string)
    requires Opens(s)
    ensures s != ""
  {
  }

  lemma {:induction false} LossIsOfSome(segments: seq<Segment>)
    ensures LostOfAll(segments) == 0 <==> forall g <- segments :: Lost(g.text) == 0
    decreases |segments|
  {
    hide Lost;
    if segments != [] {
      LossIsOfSome(segments[1..]);
      assert segments == [segments[0]] + segments[1..];
    }
  }

  lemma {:induction false} BaringLoses(s: string)
    requires BaresLeft(s)
    ensures LostLeft(s) > 0
    decreases |s|
  {
    hide Opens, IsPythonSpace;
    if IsPythonSpace(s[1]) {
      BaringLoses(s[1..]);
    }
  }

  /**
   The residual has exactly the tokens of the query that are no filters, in order, if
   and only if no piece loses a character of a word at an end, which takes whitespace
   of Python's alone there. Whitespace inside words does not matter.
   */
  lemma ResidualIsTheProseExactlyWhen(query: string)
    requires Split(query).Ok? && BaresNoQuoteFirst(Segments(query))
    ensures Shapes(query).Some?
    ensures Shapes(Split(query).value.residual) == Some(Prose(Shapes(query).value)) <==>
      forall g <- Segments(query) :: Lost(g.text) == 0
  {
    var segments := Segments(query);
    ResidualIs(query);
    SegmentsAreClean(query);
    LossIsOfSome(segments);
    ProseIsClean(query);
    hide Split, Scan, Segments, Joined, Stripped, Texts, Shapes, Prose, Lost, LostOfAll, Weight, Bared, IsProse, Trim, Scans;
    if NoneBared(segments) {
      JoinedStaysClean(segments);
    } else {
      BaredIsNotClean(segments);
      BaredLoses(segments);
    }
  }

  lemma BaredLoses(segments: seq<Segment>)
    requires !NoneBared(segments)
    ensures !forall g <- segments :: Lost(g.text) == 0
  {
    var g :| g in segments && Bared(g.text);
    BaringLoses(StripRight(g.text));
  }

  lemma ProseIsClean(query: string)
    requires Split(query).Ok?
    ensures Shapes(query).Some? && forall x <- Prose(Shapes(query).value) :: IsProse(x)
  {
    ScanHasShapes(query, 0);
    NoNegation(Scan(query, 0).value, Shapes(query).value);
    ProseHasNoFilter(Shapes(query).value);
  }

  // ------------------------------------------------------------------ splitting again

  /** Tokens that are neither filters nor unsupported leave the text as it is, but for its ends. */
  lemma {:induction false} ProseOnly(spans: seq<Spanned>)
    requires forall s <- spans :: FieldOf(s.token.kind).None? && Unsupported(s.token.kind).None?
    ensures CutsOf(spans) == [] && FirstUnsupported(spans) == None
    ensures forall kind | kind in {REPO, PATH, LANG, BRANCH} :: ValuesOf(spans, kind) == []
    decreases |spans|
  {
    if spans != [] {
      assert spans[0] in spans;
      ProseOnly(spans[1..]);
    }
  }

  lemma StripTrimmed(s: string)
    requires Trim(s)
    ensures Strip(s) == s
  {
    hide IsPythonSpace;
  }

  lemma ExcisedNothing(s: string)
    requires Trim(s)
    ensures Excised(s, []) == s
  {
    StripTrimmed(s);
    hide Strip;
    assert s[0..] == s && [s][1..] == [];
    assert Stripped([s]) == (if s != "" then [s] else []) + Stripped([]);
    assert s + "" == s;
    if s != "" {
      assert [s] + [] == [s];
      assert Joined([s]) == s + JoinedTail([s][1..]);
    }
  }

  /** The text holds no filter and is its own residual. */
  predicate Settled(text: string) {
    Split(text) == Ok(Filters([], [], [], [], text))
  }

  lemma {:induction false} NoValuesNoToken(spans: seq<Spanned>, kind: TokenKind)
    requires ValuesOf(spans, kind) == []
    ensures forall s <- spans :: s.token.kind != kind
    decreases |spans|
  {
    if spans != [] {
      NoValuesNoToken(spans[1..], kind);
      assert spans == [spans[0]] + spans[1..];
    }
  }

  /** Trimmed text splits into itself exactly when it is prose. */
  lemma SettledExactlyWhenClean(text: string)
    requires Trim(text)
    ensures Settled(text) <==> Clean(text)
  {
    ScanHasShapes(text, 0);
    if Clean(text) {
      CleanIsSettled(text);
    }
    if Settled(text) {
      SettledIsClean(text);
    }
  }

  lemma CleanIsSettled(text: string)
    requires Trim(text) && Clean(text)
    ensures Settled(text)
  {
    ScanHasShapes(text, 0);
    var spans, shapes := Scan(text, 0).value, Shapes(text).value;
    hide Shapes, FieldOf, Unsupported, Scan, CutsOf, ValuesOf, FirstUnsupported, Excised;
    forall s | s in spans
      ensures FieldOf(s.token.kind).None? && Unsupported(s.token.kind).None?
    {
      var i :| 0 <= i < |spans| && spans[i] == s;
      assert IsProse(shapes[i]);
    }
    ProseOnly(spans);
    ExcisedNothing(text);
  }

  lemma SettledIsClean(text: string)
    requires Settled(text)
    ensures Clean(text)
  {
    ScanHasShapes(text, 0);
    var spans, shapes := Scan(text, 0).value, Shapes(text).value;
    NoNegation(spans, shapes);
    NoValuesNoToken(spans, REPO);
    NoValuesNoToken(spans, PATH);
    NoValuesNoToken(spans, LANG);
    NoValuesNoToken(spans, BRANCH);
    hide Shapes, Scan, CutsOf, ValuesOf, FirstUnsupported, Excised;
    forall x | x in shapes
      ensures IsProse(x)
    {
      var i :| 0 <= i < |shapes| && shapes[i] == x;
      assert spans[i] in spans;
    }
  }

  /**
   Splitting is idempotent exactly when stripping bares nothing: when no piece that
   directly follows whitespace of Python's alone starts like a field, a regex or a
   negation. A quote that is bared first may be closed by a later piece, so only then
   the condition does not decide.
   */
  lemma SplitIsIdempotentExactlyWhen(query: string)
    requires Split(query).Ok? && BaresNoQuoteFirst(Segments(query))
    ensures Settled(Split(query).value.residual) <==> NoneBared(Segments(query))
  {
    ResidualIs(query);
    SegmentsAreClean(query);
    SettledExactlyWhenClean(Split(query).value.residual);
    hide Clean, Settled, Trim, Joined, Stripped, Split;
    if NoneBared(Segments(query)) {
      JoinedStaysClean(Segments(query));
    } else {
      BaredIsNotClean(Segments(query));
    }
  }

  /** Whitespace in these characters is whitespace to the scanner too. */
  predicate PlainSpaces(s: string) {
    forall c <- s :: IsPythonSpace(c) ==> IsSpace(c)
  }

  lemma {:induction false} PlainLosesNothing(s: string)
    requires PlainSpaces(s)
    ensures LostRight(s) == 0 && LostLeft(s) == 0 && PlainSpaces(StripRight(s))
    decreases |s|
  {
    hide IsPythonSpace;
    if s != "" {
      assert s[0] in s && s[|s| - 1] in s;
      PlainLosesNothing(s[..|s| - 1]);
      PlainLosesNothing(s[1..]);
    }
  }

  lemma {:induction false} SegmentsArePlain(s: string)
    requires PlainSpaces(s)
    ensures forall g <- Segments(s) :: PlainSpaces(g.text)
    decreases |s|
  {
    hide NextLexeme, IsPythonSpace, FieldOf;
    if s != "" && IsSpace(s[0]) {
      SegmentsArePlain(s[1..]);
    } else if s != "" && NextLexeme(s).Ok? {
      SegmentsArePlain(s[NextLexeme(s).value.length..]);
    }
  }

  /** So a query whose only whitespace is the scanner's keeps its prose, and splitting it is idempotent. */
  lemma PlainQueriesSettle(query: string)
    requires PlainSpaces(query) && Split(query).Ok?
    ensures Shapes(query).Some? && Shapes(Split(query).value.residual) == Some(Prose(Shapes(query).value))
    ensures Settled(Split(query).value.residual)
  {
    hide Split, Segments, Shapes, Prose, Settled, PlainSpaces, Lost;
    SegmentsArePlain(query);
    forall g | g in Segments(query)
      ensures Lost(g.text) == 0 && !Bared(g.text)
    {
      PlainIsNotBared(g.text);
    }
    NoneBaredNoQuote(Segments(query));
    SplitIsIdempotentExactlyWhen(query);
    ResidualIsTheProseExactlyWhen(query);
  }

  lemma {:induction false} NoneBaredNoQuote(segments: seq<Segment>)
    requires NoneBared(segments)
    ensures BaresNoQuoteFirst(segments)
    decreases |segments|
  {
    if segments != [] {
      assert segments[0] in segments && forall g <- segments[1..] :: g in segments;
      NoneBaredNoQuote(segments[1..]);
    }
  }

  lemma PlainIsNotBared(text: string)
    requires PlainSpaces(text)
    ensures Lost(text) == 0 && !Bared(text)
  {
    hide PlainSpaces;
    PlainLosesNothing(text);
    PlainLosesNothing(StripRight(text));
    if Bared(text) {
      BaringLoses(StripRight(text));
    }
  }

  /**
   `str.strip` removes whitespace the scanner reads as part of a word: then the
   residual of a query without filters can hold one.
   */
  lemma SplitNotIdempotentOnOtherSpace()
    ensures Split("\rrepo:a") == Ok(Filters([], [], [], [], "repo:a"))
    ensures Split("repo:a").Ok? && Split("repo:a").value.repoPatterns == ["a"]
  {
    hide *;
    ReturnIsAWord();
    ExcisesLeadingReturn();
    WordSplits("\rrepo:a", 7, "repo:a");
    RepoIsAFilter();
    RepoSplits("repo:a", "a", 6);
  }

  lemma WordSplits(q: string, n: nat, residual: string)
    requires Scan(q, 0) == Ok([Spanned(Token(SUBSTRING, q, 0), n)]) && Excised(q, []) == residual
    ensures Split(q) == Ok(Filters([], [], [], [], residual))
  {
    hide Scan, Excised;
    ProseOnly([Spanned(Token(SUBSTRING, q, 0), n)]);
  }

  lemma RepoSplits(q: string, v: string, n: nat)
    requires Scan(q, 0) == Ok([Spanned(Token(REPO, v, 0), n)])
    ensures Split(q).Ok? && Split(q).value.repoPatterns == [v]
  {
    hide Scan, Excised;
    var one := [Spanned(Token(REPO, v, 0), n)];
    assert one[1..] == [] && FirstUnsupported([]) == None;
    OneSpan(one[0]);
  }

  lemma ReturnIsAWord()
    ensures Scan("\rrepo:a", 0) == Ok([Spanned(Token(SUBSTRING, "\rrepo:a", 0), 7)])
  {
    var q := "\rrepo:a";
    PrefixLengthIs(q, 0);
    BareLengthIs(q, 7);
    assert q[..7] == q && |Lowered(q)| == 7 && |"or"| == 2;
    ScanOne(q, Lexeme(SUBSTRING, q, 7));
  }

  lemma ExcisesLeadingReturn()
    ensures Excised("\rrepo:a", []) == "repo:a"
  {
    var q := "\rrepo:a";
    assert q[1..] == "repo:a" && IsPythonSpace(q[0]) && Trim("repo:a");
    StripTrimmed("repo:a");
    assert Strip(q) == "repo:a";
    hide Strip;
    assert q[0..] == q && [q][1..] == [] && Stripped([q]) == ["repo:a"] + Stripped([]);
    assert ["repo:a"] + [] == ["repo:a"] && ["repo:a"][1..] == [] && "repo:a" + "" == "repo:a";
  }

  lemma ScanOne(q: string, l: Lexeme)
    requires q != "" && !IsSpace(q[0]) && NextLexeme(q) == Ok(l) && l.length == |q|
    ensures Scan(q, 0) == Ok([Spanned(Token(l.kind, l.value, 0), l.length)])
  {
    hide NextLexeme;
    assert q[|q|..] == "";
    var one := [Spanned(Token(l.kind, l.value, 0), l.length)];
    assert one + [] == one;
  }

  lemma RepoIsAFilter()
    ensures Scan("repo:a", 0) == Ok([Spanned(Token(REPO, "a", 0), 6)])
  {
    var q := "repo:a";
    PrefixLengthIs(q, 4);
    assert q[..4] == "repo" && q[5..] == "a" && "a"[..1] == "a";
    BareLengthIs("a", 1);
    RepoIsAField();
    hide EmitField, KnownField, PrefixLength, BareLength;
    ScanOne(q, Lexeme(REPO, "a", 6));
  }

  lemma RepoIsAField()
    ensures KnownField("repo") && EmitField("repo", "a") == Ok((REPO, "a"))
  {
  }
}
