/** The reading screen's picker dialog: switching translation, the book grid
    with its fixed-width labels, and the chapter grid. */
module HomeScreen {
  import opened Wrappers
  import opened Text
  import S = Serialization
  import P = SharedPrefs
  import G = Getters
  import M = MainLogic
  import L = Layout

  const BooksPerRow := 3
  const BookLabelLength := 7
  const ChaptersPerRow := 4

  // ------------------------------------------------------- translation switch

  /** Switching the dialog to translation `t` as written: the counts are read
      with the OLD book index, which throws when the new translation has no
      such book, before the clamp that was meant to catch exactly that case.
      A loaded translation therefore either throws or keeps the book. */
  function SwitchTranslationAsWritten(lib: S.Library, sel: P.Selection, t: string): (r: Checked<P.Selection>)
    ensures t in lib ==> (r.Ok? <==> G.IsBook(lib[t], sel.book))
    ensures r.Ok? ==> r.value.translation == t
    ensures t in lib && r.Ok? ==>
              && r.value.book == sel.book
              && r.value.chapter == (if sel.chapter > |lib[t].books[sel.book].chapters| - 1 then 0 else sel.chapter)
    ensures t !in lib ==> r.Ok?
    ensures t !in lib && sel.book > 0 ==> r.value.book == 0 && r.value.chapter == 0
    ensures t !in lib && sel.book <= 0 ==> r.value.book == sel.book && r.value.chapter == (if sel.chapter > 0 then 0 else sel.chapter)
  {
    match G.GetCount(lib, t, sel.book)
    case IndexOutOfBounds => IndexOutOfBounds
    case Ok((bookCount, chapterCount)) =>
      var reset := sel.book > bookCount;
      var book := if reset then 0 else sel.book;
      var chapter := if reset then 0 else sel.chapter;
      Ok(P.Selection(t, book, if chapter > chapterCount then 0 else chapter))
  }

  /** Reading Matthew (book 39) and switching to a translation holding only
      the 27 books of the New Testament throws instead of resetting to the
      first book. */
  lemma SwitchToShorterTranslationThrows()
    ensures var nt := S.Bible("nt", "", "", "", seq(27, _ => S.Book("", [S.Chapter("", [])])));
            SwitchTranslationAsWritten(map["nt" := nt], P.Selection("elb", 39, 0), "nt") == IndexOutOfBounds
  {
  }

  /** The switch with the clamp moved before the lookup that needs it: the
      book is reset to the first one (and the chapter with it) when the new
      translation has no such book, and the chapter is reset when that book
      has no such chapter. A valid place carries over unchanged. */
  function SwitchTranslation(lib: S.Library, sel: P.Selection, t: string): (r: Checked<P.Selection>)
    ensures r.Ok? ==> r.value.translation == t
    ensures t in lib && sel.book >= 0 && |lib[t].books| > 0 ==> r.Ok?
    ensures t in lib && r.Ok? ==>
              && G.IsBook(lib[t], r.value.book)
              && (sel.chapter >= 0 && |lib[t].books[r.value.book].chapters| > 0 ==>
                    G.IsChapter(lib[t], r.value.book, r.value.chapter))
    ensures t in lib && G.IsChapter(lib[t], sel.book, sel.chapter) ==> r == Ok(sel.(translation := t))
    ensures t in lib && G.IsBook(lib[t], sel.book) ==>
              r == Ok(P.Selection(t, sel.book, if sel.chapter > |lib[t].books[sel.book].chapters| - 1 then 0 else sel.chapter))
    ensures t in lib && sel.book >= |lib[t].books| && r.Ok? ==> r.value.book == 0 && r.value.chapter == 0
    ensures t !in lib ==> r == SwitchTranslationAsWritten(lib, sel, t)
  {
    var bookCount := if t in lib then |lib[t].books| - 1 else 0;
    var reset := sel.book > bookCount;
    var book := if reset then 0 else sel.book;
    var chapter := if reset then 0 else sel.chapter;
    match G.GetCount(lib, t, book)
    case IndexOutOfBounds => IndexOutOfBounds
    case Ok((_, chapterCount)) => Ok(P.Selection(t, book, if chapter > chapterCount then 0 else chapter))
  }

  /** Wherever the written switch throws on a loaded translation, the
      corrected one lands on its first book and chapter. */
  lemma SwitchTranslationRecovers(lib: S.Library, sel: P.Selection, t: string)
    requires t in lib && |lib[t].books| > 0 && sel.book >= |lib[t].books|
    ensures SwitchTranslationAsWritten(lib, sel, t) == IndexOutOfBounds
    ensures SwitchTranslation(lib, sel, t) == Ok(P.Selection(t, 0, 0))
  {
  }

  // ---------------------------------------------------------------- book grid

  /** A book button's label: names longer than seven characters are cut to
      six, trimmed and given a full stop; every label is then padded with
      spaces to exactly seven characters. */
  function BookLabel(name: string): (r: string)
    ensures |r| == BookLabelLength
    ensures |name| <= BookLabelLength ==> r[..|name|] == name
    ensures forall k :: |M.Shorten(name, BookLabelLength)| <= k < BookLabelLength ==> r[k] == ' '
  {
    var shortened := if |name| > BookLabelLength then Trim(name[..BookLabelLength - 1]) + "." else name;
    PadEnd(shortened, BookLabelLength)
  }

  /** The label is the app's general `shorten` at width seven, padded; so a
      long name keeps its trimmed six-character head before the full stop. */
  lemma BookLabelIsShortened(name: string)
    ensures BookLabel(name) == PadEnd(M.Shorten(name, BookLabelLength), BookLabelLength)
    ensures |name| > BookLabelLength ==>
              var head := Trim(name[..BookLabelLength - 1]);
              BookLabel(name)[..|head|] == head && BookLabel(name)[|head|] == '.'
  {
    if |name| > BookLabelLength {
      var head := Trim(name[..BookLabelLength - 1]);
      var shown := BookLabel(name);
      assert shown[..|head| + 1] == head + ".";
      assert shown[..|head|] == (head + ".")[..|head|];
    }
  }

  /** The book grid: one button per name `getBookNames` returns, three to a
      row without spacers, each labelled with `BookLabel`. For a loaded
      translation the buttons select exactly its books; otherwise the single
      `ERROR` entry is offered as book 0. */
  method BookGrid(lib: S.Library, t: string) returns (rows: seq<seq<L.Cell>>, labels: seq<string>)
    ensures t in lib ==> forall b :: b in L.Buttons(L.Flatten(rows)) <==> G.IsBook(lib[t], b)
    ensures t !in lib ==> L.Buttons(L.Flatten(rows)) == [0] && labels == [BookLabel(G.LoadErrorTitle)]
    ensures forall b :: b in L.Buttons(L.Flatten(rows)) ==> 0 <= b < |labels|
    ensures t in lib ==> |labels| == |lib[t].books| && forall b :: 0 <= b < |labels| ==> labels[b] == BookLabel(lib[t].books[b].name)
    ensures forall r, c :: 0 <= r < |rows| && 0 <= c < |rows[r]| ==> rows[r][c].Button?
  {
    var names := G.GetBookNames(lib, t);
    rows := L.Grid(|names| - 1, BooksPerRow, false);
    labels := seq(|names|, i requires 0 <= i < |names| => BookLabel(names[i]));
    assert L.WellShaped(rows, BooksPerRow, false);
  }

  /** Tapping book `b` in the grid: the book becomes `b` and the chapter is
      kept unless the new book has no such chapter, when it goes back to the
      first. The tap can only come from the grid, so `b` is a book of the
      loaded translation, or 0 when it does not load. */
  function PickBook(lib: S.Library, sel: P.Selection, b: int): (r: P.Selection)
    requires sel.translation in lib ==> G.IsBook(lib[sel.translation], b)
    requires sel.translation !in lib ==> b == 0
    ensures r.translation == sel.translation && r.book == b
    ensures r.chapter == sel.chapter || r.chapter == 0
    ensures sel.translation !in lib ==> r.chapter == (if sel.chapter > 0 then 0 else sel.chapter)
    ensures sel.translation in lib ==>
              (r.chapter == sel.chapter <==> sel.chapter < |lib[sel.translation].books[b].chapters| || sel.chapter == 0)
    ensures sel.translation in lib && sel.chapter >= 0 && |lib[sel.translation].books[b].chapters| > 0 ==>
              G.IsChapter(lib[sel.translation], b, r.chapter)
  {
    match G.GetCount(lib, sel.translation, b)
    case Ok((_, chapterCount)) => P.Selection(sel.translation, b, if sel.chapter > chapterCount then 0 else sel.chapter)
    case IndexOutOfBounds => assert false; sel
  }

  // ------------------------------------------------------------- chapter grid

  /** A chapter button shows its 1-based number. */
  function ChapterLabel(index: nat): (r: string)
    ensures |r| > 0 && AllDigits(r) && r[0] != '0'
  {
    NatToString(index + 1)
  }

  /** The label reads back as the chapter's index plus one, so different
      chapters never share a label. */
  lemma ChapterLabelNumbersFromOne(index: nat, other: nat)
    ensures ParseNat(ChapterLabel(index)) == index + 1
    ensures ChapterLabel(index) == ChapterLabel(other) ==> index == other
  {
    ParseNatToString(index + 1);
    ParseNatToString(other + 1);
  }

  /** The chapter grid: four to a row without spacers, over `0..count` as
      `getCount` gives it. For a book of a loaded translation the buttons
      select exactly its chapters; an unloaded translation offers chapter 0. */
  method ChapterGrid(lib: S.Library, sel: P.Selection) returns (r: Checked<seq<seq<L.Cell>>>)
    ensures sel.translation in lib ==> (r.Ok? <==> G.IsBook(lib[sel.translation], sel.book))
    ensures sel.translation in lib && r.Ok? ==>
              forall c :: c in L.Buttons(L.Flatten(r.value)) <==> G.IsChapter(lib[sel.translation], sel.book, c)
    ensures sel.translation !in lib ==> r.Ok? && L.Buttons(L.Flatten(r.value)) == [0]
  {
    match G.GetCount(lib, sel.translation, sel.book)
    case IndexOutOfBounds =>
      return IndexOutOfBounds;
    case Ok((_, num)) =>
      var rows := L.Grid(num, ChaptersPerRow, false);
      return Ok(rows);
  }
}
