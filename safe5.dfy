/**
  The Trezor Safe 5 layout: a title, the size in bytes, then the hex text cut into
  pages of windows. The first page shows windows of 9, 9, 9, 9, 9 and 7 bytes, every
  later page 7, 9, 9, 9, 9 and 7 bytes, and each later page starts with its own label.
 */
module TrezorSafe5 {
  import opened Text
  import opened HexNormalizer

  const Title := "\n\nTrezor Format:\n"

  /** Window widths in bytes on the first page and on every later one. */
  const FirstWidths: seq<nat> := [9, 9, 9, 9, 9, 7]
  const LaterWidths: seq<nat> := [7, 9, 9, 9, 9, 7]

  lemma WidthsPositive()
    ensures forall i :: 0 <= i < |FirstWidths| ==> FirstWidths[i] > 0
    ensures forall i :: 0 <= i < |LaterWidths| ==> LaterWidths[i] > 0
    ensures Sum(FirstWidths) == 52 && Sum(LaterWidths) == 50
  {
  }

  /** The hex characters one full page covers. */
  const FirstPageChars := 104
  const LaterPageChars := 100

  /** `Size: ${bytes.length} bytes\n` */
  function SizeLine(n: nat): string
  {
    "Size: " + NatToString(n) + " bytes\n"
  }

  /** The label of the first page, `Page ${pageCounter++}:\n` with the counter at 1. */
  function FirstLabel(): string
  {
    "Page " + NatToString(1) + ":\n"
  }

  /** The label of page `k` after the first, `\nPage ${pageCounter++}:\n`. */
  function LaterLabel(k: nat): string
  {
    "\nPage " + NatToString(k) + ":\n"
  }

  function Sum(ws: seq<nat>): nat
  {
    if ws == [] then 0 else ws[0] + Sum(ws[1..])
  }

  /** The windows of one page: `take(w)` for each width in turn while text is left.
      Every `take` moves on by the full width, even when the slice it returns is short. */
  function Cut(s: string, ws: seq<nat>): seq<string>
    decreases |ws|
  {
    if s == [] || ws == [] then [] else [Slice(s, 0, 2 * ws[0])] + Cut(Drop(s, 2 * ws[0]), ws[1..])
  }

  /** The pages after the first, each cut from the text left after the one before. */
  function LaterPages(s: string): seq<seq<string>>
    decreases |s|
  {
    if s == [] then [] else [Cut(s, LaterWidths)] + LaterPages(Drop(s, LaterPageChars))
  }

  /** Every page of the hex text, each given as its windows. */
  function Pages(hex: string): seq<seq<string>>
  {
    if hex == [] then [] else [Cut(hex, FirstWidths)] + LaterPages(Drop(hex, FirstPageChars))
  }

  /** The widths the windows of page `j` (counting from 0) are taken with. */
  function Widths(j: nat): seq<nat>
  {
    if j == 0 then FirstWidths else LaterWidths
  }

  /** Pages numbered from `k` on, each preceded by its label. */
  function Labelled(pages: seq<seq<string>>, k: nat): seq<string>
  {
    if pages == [] then [] else [LaterLabel(k)] + pages[0] + Labelled(pages[1..], k + 1)
  }

  /** The lines the Trezor Safe 5 formatter prints, one after another. */
  function Safe5Lines(c: Calldata): seq<string>
  {
    var ps := Pages(c.hex);
    [Title, SizeLine(|c.bytes|), FirstLabel()] + (if ps == [] then [] else ps[0] + Labelled(ps[1..], 2))
  }

  /** All windows, in the order they are shown, without any of the header lines. */
  function Windows(hex: string): seq<string>
  {
    Flatten(Pages(hex))
  }

  /** One more page at `offset` while text is left. */
  lemma PageStep(hex: string, offset: nat, k: nat)
    requires offset < |hex|
    ensures Labelled(LaterPages(Drop(hex, offset)), k)
      == [LaterLabel(k)] + Cut(Drop(hex, offset), LaterWidths)
         + Labelled(LaterPages(Drop(hex, offset + LaterPageChars)), k + 1)
  {
    var s := Drop(hex, offset);
    DropDrop(hex, offset, LaterPageChars);
    assert LaterPages(s)[1..] == LaterPages(Drop(s, LaterPageChars));
  }

  /** Once the text is used up, nothing more is shown. */
  lemma CutDone(hex: string, offset: nat, ws: seq<nat>)
    requires offset >= |hex|
    ensures Cut(Drop(hex, offset), ws) == [] && LaterPages(Drop(hex, offset)) == []
  {
  }

  /** The output before any window: the title, the size and the first label, then the
      windows of the first page and the labelled later pages. */
  lemma Safe5Start(c: Calldata)
    ensures Safe5Lines(c) == [Title, SizeLine(|c.bytes|), FirstLabel()]
      + Cut(c.hex, FirstWidths) + Labelled(LaterPages(Drop(c.hex, FirstPageChars)), 2)
  {
    if c.hex != [] {
      assert Pages(c.hex)[1..] == LaterPages(Drop(c.hex, FirstPageChars));
    }
  }

  /** `take(w)` up to `n` times from `offset` on, while `offset < hex.length`; every
      take moves the offset on by the full `2 * w` characters. */
  function Takes(hex: string, offset: nat, w: nat, n: nat): seq<string>
    decreases n
  {
    if offset >= |hex| || n == 0 then []
    else [Slice(hex, offset, offset + 2 * w)] + Takes(hex, offset + 2 * w, w, n - 1)
  }

  /** The loops' step: one more take keeps the windows so far, followed by what is
      still to be taken, equal to the whole run. */
  lemma TakeStep(hex: string, offset: nat, next: nat, w: nat, n: nat, left: nat,
                 windows: seq<string>, whole: seq<string>)
    requires offset < |hex| && next == offset + 2 * w && n == left + 1
    requires windows + Takes(hex, offset, w, n) == whole
    ensures (windows + [Slice(hex, offset, next)]) + Takes(hex, next, w, left) == whole
  {
    AppendAssoc(windows, [Slice(hex, offset, next)], Takes(hex, next, w, left));
  }

  /** The first page as its loops take it: five 9-byte windows, then one of 7. */
  function FirstCut(hex: string): seq<string>
  {
    Takes(hex, 0, 9, 5) + Takes(hex, 90, 7, 1)
  }

  /** A later page starting at `start` as its loops take it: one 7-byte window, four of
      9, one of 7. */
  function LaterCut(hex: string, start: nat): seq<string>
  {
    Takes(hex, start, 7, 1) + Takes(hex, start + 14, 9, 4) + Takes(hex, start + 86, 7, 1)
  }

  /** `n` takes of 9 bytes do what a stretch of `n` widths of 9 in a schedule does, and
      the rest of the schedule goes on from where they end. */
  lemma {:induction false} NineTakes(hex: string, offset: nat, n: nat, ws: seq<nat>, end: nat, rest: seq<nat>)
    requires n <= |ws| && forall i :: 0 <= i < n ==> ws[i] == 9
    requires end == offset + 18 * n && rest == ws[n..]
    ensures Cut(Drop(hex, offset), ws) == Takes(hex, offset, 9, n) + Cut(Drop(hex, end), rest)
    decreases n
  {
    if n == 0 {
      assert ws[0..] == ws;
    } else if offset >= |hex| {
      DropPast(hex, offset, end);
    } else {
      var window := Slice(hex, offset, offset + 18);
      assert Cut(Drop(hex, offset), ws) == [window] + Cut(Drop(hex, offset + 18), ws[1..]) by {
        SliceDrop(hex, offset, 18);
      }
      assert ws[1..][n - 1..] == rest;
      NineTakes(hex, offset + 18, n - 1, ws[1..], end, rest);
      AppendAssoc([window], Takes(hex, offset + 18, 9, n - 1), Cut(Drop(hex, end), rest));
    }
  }

  /** One take of 7 bytes is the first step of a schedule that starts with a 7. */
  lemma SevenTake(hex: string, offset: nat, ws: seq<nat>)
    requires ws != [] && ws[0] == 7
    ensures Cut(Drop(hex, offset), ws) == Takes(hex, offset, 7, 1) + Cut(Drop(hex, offset + 14), ws[1..])
  {
    if offset >= |hex| {
      DropPast(hex, offset, offset + 14);
    } else {
      SliceDrop(hex, offset, 14);
    }
  }

  /** The first page's loops follow its schedule of widths. */
  lemma FirstCutSchedule(hex: string)
    ensures FirstCut(hex) == Cut(hex, FirstWidths)
  {
    var rest: seq<nat> := [7];
    assert Cut(hex, FirstWidths) == Takes(hex, 0, 9, 5) + Cut(Drop(hex, 90), rest) by {
      assert FirstWidths[5..] == rest;
      assert Drop(hex, 0) == hex;
      NineTakes(hex, 0, 5, FirstWidths, 90, rest);
    }
    assert Cut(Drop(hex, 90), rest) == Takes(hex, 90, 7, 1) by {
      SevenTake(hex, 90, rest);
      assert Cut(Drop(hex, 104), rest[1..]) == [];
    }
  }

  /** A later page's loops follow its schedule of widths. */
  lemma LaterCutSchedule(hex: string, start: nat)
    ensures LaterCut(hex, start) == Cut(Drop(hex, start), LaterWidths)
  {
    var nines: seq<nat> := [9, 9, 9, 9, 7];
    var rest: seq<nat> := [7];
    var first, middle, last := Takes(hex, start, 7, 1), Takes(hex, start + 14, 9, 4), Takes(hex, start + 86, 7, 1);
    assert Cut(Drop(hex, start), LaterWidths) == first + Cut(Drop(hex, start + 14), nines) by {
      assert LaterWidths[1..] == nines;
      SevenTake(hex, start, LaterWidths);
    }
    assert Cut(Drop(hex, start + 14), nines) == middle + Cut(Drop(hex, start + 86), rest) by {
      assert nines[4..] == rest;
      NineTakes(hex, start + 14, 4, nines, start + 86, rest);
    }
    assert Cut(Drop(hex, start + 86), rest) == last by {
      SevenTake(hex, start + 86, rest);
      assert Cut(Drop(hex, start + 100), rest[1..]) == [];
    }
    AppendAssoc(first, middle, last);
  }

  /** The loop `for (let i = 0; i < count && offset < hex.length; i++)` pushing
      `take(9)`, started at `start`. The offset ends `18 * count` further on, or past the
      end of the text before that. */
  method TakeNines(hex: string, start: nat, count: nat) returns (windows: seq<string>, offset: nat)
    ensures windows == Takes(hex, start, 9, count)
    ensures start <= offset
    ensures offset == start + 18 * count || |hex| <= offset <= start + 18 * count
  {
    ghost var whole := Takes(hex, start, 9, count);
    windows := [];
    offset := start;
    var i := 0;
    while i < count && offset < |hex|
      invariant 0 <= i <= count && offset == start + 18 * i
      invariant windows + Takes(hex, offset, 9, count - i) == whole
    {
      TakeStep(hex, offset, offset + 18, 9, count - i, count - (i + 1), windows, whole);
      windows := windows + [Slice(hex, offset, offset + 18)];
      offset := offset + 18;
      i := i + 1;
    }
    assert windows == whole by {
      assert Takes(hex, offset, 9, count - i) == [];
    }
  }

  /** The first page's loops: `take(9)` up to five times while text is left, then
      `take(7)` if text is still left. The offset ends just past the page, or past the
      end of a shorter text. */
  method FirstPage(hex: string) returns (windows: seq<string>, offset: nat)
    ensures windows == FirstCut(hex)
    ensures offset == FirstPageChars || |hex| <= offset <= FirstPageChars
  {
    windows, offset := TakeNines(hex, 0, 5);
    if offset < |hex| {
      windows := windows + [Slice(hex, offset, offset + 14)];
      offset := offset + 14;
    }
  }

  /** The loops of a later page starting at `start`: `take(7)`, then `take(9)` up to
      four times while text is left, then `take(7)` if text is still left. The offset
      moves on by at least 14 and ends just past the page, or past the end of the
      text. */
  method LaterPage(hex: string, start: nat) returns (windows: seq<string>, offset: nat)
    requires start < |hex|
    ensures windows == LaterCut(hex, start)
    ensures start + 14 <= offset
    ensures offset == start + LaterPageChars || |hex| <= offset <= start + LaterPageChars
  {
    var nines;
    nines, offset := TakeNines(hex, start + 14, 4);
    windows := [Slice(hex, start, start + 14)] + nines;
    assert Takes(hex, start, 7, 1) == [Slice(hex, start, start + 14)];
    if offset < |hex| {
      assert Takes(hex, start + 86, 7, 1) == [Slice(hex, offset, offset + 14)];
      windows := windows + [Slice(hex, offset, offset + 14)];
      offset := offset + 14;
    } else {
      assert Takes(hex, start + 86, 7, 1) == [];
    }
  }

  /** Where a page loop leaves the offset, the text left is the text after the page. */
  lemma PageEnd(hex: string, offset: nat, end: nat)
    requires offset == end || |hex| <= offset <= end
    ensures Drop(hex, offset) == Drop(hex, end)
  {
    if offset != end {
      DropPast(hex, offset, end);
    }
  }

  /** The lines after the first page's windows, once the first page is pushed. */
  lemma FirstAdvance(c: Calldata, windows: seq<string>, offset: nat, lines: seq<string>)
    requires windows == FirstCut(c.hex)
    requires offset == FirstPageChars || |c.hex| <= offset <= FirstPageChars
    requires lines == [Title, SizeLine(|c.bytes|), FirstLabel()]
    ensures (lines + windows) + Labelled(LaterPages(Drop(c.hex, offset)), 2) == Safe5Lines(c)
  {
    Safe5Start(c);
    FirstCutSchedule(c.hex);
    PageEnd(c.hex, offset, FirstPageChars);
    AppendAssoc(lines, windows, Labelled(LaterPages(Drop(c.hex, FirstPageChars)), 2));
  }

  /** One turn of the page loop: pushing the label and the windows of the page at
      `offset` leaves the pages after it still to be shown. */
  lemma LaterAdvance(hex: string, offset: nat, next: nat, k: nat, windows: seq<string>,
                     lines: seq<string>, whole: seq<string>)
    requires offset < |hex|
    requires windows == LaterCut(hex, offset)
    requires next == offset + LaterPageChars || |hex| <= next <= offset + LaterPageChars
    requires lines + Labelled(LaterPages(Drop(hex, offset)), k) == whole
    ensures (lines + [LaterLabel(k)] + windows) + Labelled(LaterPages(Drop(hex, next)), k + 1) == whole
  {
    PageStep(hex, offset, k);
    LaterCutSchedule(hex, offset);
    PageEnd(hex, next, offset + LaterPageChars);
    var tail := Labelled(LaterPages(Drop(hex, next)), k + 1);
    AppendAssoc(lines + [LaterLabel(k)], windows, tail);
    AppendAssoc(lines, [LaterLabel(k)], windows + tail);
  }

  /** `formatCalldataForTrezorSafe5`, returning its lines instead of printing them joined
      with newlines. It fails exactly when normalisation does, and otherwise yields the
      layout `Safe5Lines` describes. Every turn of the page loop moves the offset on by
      at least 14 characters, so the loop ends. */
  method FormatTrezorSafe5(raw: string) returns (r: Result<seq<string>>)
    ensures r.Err? <==> |StripPrefix(raw)| % 2 == 1
    ensures r.Ok? ==> Normalize(raw).Ok? && r.value == Safe5Lines(Normalize(raw).value)
  {
    var normalized := Normalize(raw);
    if normalized.Err? {
      return Err(normalized.error);
    }
    var c := normalized.value;
    var hex, bytes := c.hex, c.bytes;
    var lines: seq<string> := [];
    var pageCounter: nat := 1;
    lines := lines + [Title];
    lines := lines + [SizeLine(|bytes|)];
    lines := lines + ["Page " + NatToString(pageCounter) + ":\n"];
    pageCounter := pageCounter + 1;
    assert lines == [Title, SizeLine(|c.bytes|), FirstLabel()];

    var windows, offset := FirstPage(hex);
    FirstAdvance(c, windows, offset, lines);
    lines := lines + windows;

    while offset < |hex|
      invariant pageCounter >= 2
      invariant lines + Labelled(LaterPages(Drop(hex, offset)), pageCounter) == Safe5Lines(c)
      decreases |hex| - offset
    {
      var header := LaterLabel(pageCounter);
      var next: nat;
      windows, next := LaterPage(hex, offset);
      LaterAdvance(hex, offset, next, pageCounter, windows, lines, Safe5Lines(c));
      lines := lines + [header] + windows;
      pageCounter := pageCounter + 1;
      offset := next;
    }
    CutDone(hex, offset, []);
    assert lines + [] == lines;
    return Ok(lines);
  }

  /** The windows of one page, written one after another, are the text that page
      covers: the first `2 * Sum(ws)` characters, or all of them when fewer are left. */
  lemma {:induction false} CutCover(s: string, ws: seq<nat>)
    ensures Flatten(Cut(s, ws)) == s[..Min(2 * Sum(ws), |s|)]
    decreases |ws|
  {
    if s != [] && ws != [] {
      var w := 2 * ws[0];
      var rest := Drop(s, w);
      CutCover(rest, ws[1..]);
      assert Cut(s, ws)[1..] == Cut(rest, ws[1..]);
      PrefixStep(s, w, 2 * Sum(ws[1..]));
    }
  }

  /** What a page's windows look like: no more windows than widths, every window
      non-empty and at most its width, every window but the last exactly its width, and
      a complete page when the text left covers all the widths. */
  predicate WellCut(r: seq<string>, ws: seq<nat>)
  {
    && |r| <= |ws|
    && (forall i :: 0 <= i < |r| ==> 0 < |r[i]| <= 2 * ws[i])
    && (forall i :: 0 <= i < |r| - 1 ==> |r[i]| == 2 * ws[i])
  }

  predicate FullCut(r: seq<string>, ws: seq<nat>)
  {
    |r| == |ws| && forall i :: 0 <= i < |r| ==> |r[i]| == 2 * ws[i]
  }

  lemma {:induction false} CutWidths(s: string, ws: seq<nat>)
    requires forall i :: 0 <= i < |ws| ==> ws[i] > 0
    ensures WellCut(Cut(s, ws), ws)
    ensures 2 * Sum(ws) <= |s| ==> FullCut(Cut(s, ws), ws)
    decreases |ws|
  {
    if s != [] && ws != [] {
      var w := 2 * ws[0];
      var rest := Drop(s, w);
      var r := Cut(s, ws);
      CutWidths(rest, ws[1..]);
      assert r[1..] == Cut(rest, ws[1..]);
      assert |r[0]| == Min(w, |s|);
      if rest != [] {
        assert |r[0]| == w;
      }
      forall i | 1 <= i < |r| ensures r[i] == Cut(rest, ws[1..])[i - 1] && ws[i] == ws[1..][i - 1] {
      }
    }
  }

  /** One later page: it is well cut, and in full unless it is the last. */
  lemma {:induction false} LaterPageShape(s: string, j: nat)
    requires j < |LaterPages(s)|
    ensures WellCut(LaterPages(s)[j], LaterWidths)
    ensures j < |LaterPages(s)| - 1 ==> FullCut(LaterPages(s)[j], LaterWidths)
    decreases j
  {
    var ps := LaterPages(s);
    var rest := Drop(s, LaterPageChars);
    assert ps[1..] == LaterPages(rest);
    if j == 0 {
      WidthsPositive();
      CutWidths(s, LaterWidths);
      if |ps| > 1 {
        assert |s| > LaterPageChars;
      }
    } else {
      LaterPageShape(rest, j - 1);
      assert ps[j] == LaterPages(rest)[j - 1];
    }
  }

  /** Every later page is well cut, and all but the last are in full. */
  lemma LaterPagesShape(s: string)
    ensures forall j :: 0 <= j < |LaterPages(s)| ==> WellCut(LaterPages(s)[j], LaterWidths)
    ensures forall j :: 0 <= j < |LaterPages(s)| - 1 ==> FullCut(LaterPages(s)[j], LaterWidths)
  {
    forall j | 0 <= j < |LaterPages(s)|
      ensures WellCut(LaterPages(s)[j], LaterWidths)
      ensures j < |LaterPages(s)| - 1 ==> FullCut(LaterPages(s)[j], LaterWidths)
    {
      LaterPageShape(s, j);
    }
  }

  /** Window widths page by page: the first page uses 9, 9, 9, 9, 9, 7 and every later
      page 7, 9, 9, 9, 9, 7 bytes; every page but the last shows all six windows in full,
      and only the very last window of the last page may be shorter than its width,
      though never empty. */
  lemma PagesShape(hex: string)
    ensures forall j :: 0 <= j < |Pages(hex)| ==> WellCut(Pages(hex)[j], Widths(j))
    ensures forall j :: 0 <= j < |Pages(hex)| - 1 ==> FullCut(Pages(hex)[j], Widths(j))
  {
    if hex != [] {
      var ps := Pages(hex);
      var rest := Drop(hex, FirstPageChars);
      WidthsPositive();
      CutWidths(hex, FirstWidths);
      LaterPagesShape(rest);
      assert ps[1..] == LaterPages(rest);
      if LaterPages(rest) != [] {
        assert |hex| > FirstPageChars;
      }
      forall j | 1 <= j < |ps| ensures ps[j] == LaterPages(rest)[j - 1] && Widths(j) == LaterWidths {
      }
    }
  }

  lemma {:induction false} LaterPagesCover(s: string)
    ensures Flatten(Flatten(LaterPages(s))) == s
    decreases |s|
  {
    if s != [] {
      var rest := Drop(s, LaterPageChars);
      var ps := LaterPages(s);
      LaterPagesCover(rest);
      CutCover(s, LaterWidths);
      WidthsPositive();
      assert ps == [Cut(s, LaterWidths)] + LaterPages(rest);
      FlattenAppend([Cut(s, LaterWidths)], LaterPages(rest));
      FlattenAppend(Cut(s, LaterWidths), Flatten(LaterPages(rest)));
      assert Flatten([Cut(s, LaterWidths)]) == Cut(s, LaterWidths);
      assert s == s[..Min(100, |s|)] + rest;
    }
  }

  /** Nothing is lost and nothing repeats: the windows of all pages, written one after
      another with the header lines left out, are exactly the hex text. */
  lemma WindowsCover(hex: string)
    ensures Flatten(Windows(hex)) == hex
  {
    if hex != [] {
      var rest := Drop(hex, FirstPageChars);
      LaterPagesCover(rest);
      CutCover(hex, FirstWidths);
      WidthsPositive();
      assert Pages(hex) == [Cut(hex, FirstWidths)] + LaterPages(rest);
      FlattenAppend([Cut(hex, FirstWidths)], LaterPages(rest));
      FlattenAppend(Cut(hex, FirstWidths), Flatten(LaterPages(rest)));
      assert Flatten([Cut(hex, FirstWidths)]) == Cut(hex, FirstWidths);
      assert hex == hex[..Min(104, |hex|)] + rest;
    }
  }

  lemma {:induction false} LaterPagesCount(s: string)
    ensures |LaterPages(s)| == (|s| + 99) / 100
    decreases |s|
  {
    if s != [] {
      LaterPagesCount(Drop(s, LaterPageChars));
      assert LaterPages(s)[1..] == LaterPages(Drop(s, LaterPageChars));
    }
  }

  /** The number of pages: none for empty text, one up to 104 hex characters, and one
      more for every further 100 characters or part of them. */
  lemma PageCount(hex: string)
    ensures |Pages(hex)| == if hex == [] then 0 else if |hex| <= FirstPageChars then 1
      else 1 + (|hex| - FirstPageChars + 99) / 100
  {
    if hex != [] {
      LaterPagesCount(Drop(hex, FirstPageChars));
    }
  }

  /** The same count in bytes, for text of even length: one page up to 52 bytes, then
      one more for every further 50 bytes or part of them. */
  lemma PageCountInBytes(hex: string)
    requires |hex| % 2 == 0
    ensures var n := |hex| / 2;
      |Pages(hex)| == if n == 0 then 0 else if n <= 52 then 1 else 1 + (n - 52 + 49) / 50
  {
    PageCount(hex);
    var n := |hex| / 2;
    if n > 52 {
      var m := n - 52;
      assert |hex| - FirstPageChars + 99 == 2 * m + 99;
      assert (2 * m + 99) / 100 == (m + 49) / 50;
    }
  }

  lemma {:induction false} LabelledLength(ps: seq<seq<string>>, k: nat)
    ensures |Labelled(ps, k)| == |ps| + |Flatten(ps)|
    decreases |ps|
  {
    if ps != [] {
      LabelledLength(ps[1..], k + 1);
    }
  }

  /** Labelled pages are, in order, each page's label followed by its windows. */
  lemma {:induction false} LabelledPages(ps: seq<seq<string>>, k: nat)
    ensures Labelled(ps, k) == Flatten(seq(|ps|, j requires 0 <= j < |ps| => [LaterLabel(k + j)] + ps[j]))
    decreases |ps|
  {
    var parts := seq(|ps|, j requires 0 <= j < |ps| => [LaterLabel(k + j)] + ps[j]);
    if ps != [] {
      LabelledPages(ps[1..], k + 1);
      assert parts[1..] == seq(|ps| - 1, j requires 0 <= j < |ps| - 1 => [LaterLabel(k + 1 + j)] + ps[1..][j]);
    }
  }

  /** The output starts with the title, the size in bytes and the first page label,
      followed by the first page's windows; then, for every later page in order, the
      label `Page j:` with its number, followed by that page's windows. So it holds every
      window and one label per page after the first, and nothing else. */
  lemma Safe5Layout(c: Calldata)
    ensures |Safe5Lines(c)| >= 3
    ensures Safe5Lines(c)[..3] == [Title, SizeLine(|c.bytes|), FirstLabel()]
    ensures var ps := Pages(c.hex);
      Safe5Lines(c) == [Title, SizeLine(|c.bytes|), FirstLabel()] + (if ps == [] then [] else
        ps[0] + Flatten(seq(|ps| - 1, j requires 0 <= j < |ps| - 1 => [LaterLabel(j + 2)] + ps[j + 1])))
    ensures |Safe5Lines(c)| == 3 + |Windows(c.hex)| + (if Pages(c.hex) == [] then 0 else |Pages(c.hex)| - 1)
  {
    var ps := Pages(c.hex);
    if ps != [] {
      LabelledPages(ps[1..], 2);
      assert seq(|ps| - 1, j requires 0 <= j < |ps| - 1 => [LaterLabel(j + 2)] + ps[j + 1])
        == seq(|ps[1..]|, j requires 0 <= j < |ps[1..]| => [LaterLabel(2 + j)] + ps[1..][j]);
      LabelledLength(ps[1..], 2);
      assert ps == [ps[0]] + ps[1..];
      FlattenAppend([ps[0]], ps[1..]);
      assert Flatten([ps[0]]) == ps[0];
    }
  }

  /** Empty calldata, with or without the prefix, shows the title, "Size: 0 bytes" and
      the first page label, and no window. */
  lemma Safe5Empty(raw: string)
    requires raw == "" || raw == "0x"
    ensures Normalize(raw) == Ok(Calldata("", []))
    ensures Safe5Lines(Normalize(raw).value) == [Title, "Size: 0 bytes\n", "Page 1:\n"]
  {
    var c := Normalize(raw).value;
    assert Pages(c.hex) == [];
    assert DigitChar(0) == '0' && DigitChar(1) == '1';
    assert SizeLine(|c.bytes|) == "Size: 0 bytes\n";
    assert FirstLabel() == "Page 1:\n";
  }
}
