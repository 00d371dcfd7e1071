# hw_wallet_calldata_formatter in Dafny

A model of the two formatters in `index.js` that lay out Ethereum calldata, given as
hex text, for checking on a hardware wallet's screen:

- **Ledger Flex** (`formatCalldataForLedgerFlex`) prints a title and the selector,
  the first (up to) four bytes. It then prints one line per 32-byte block of the
  remaining bytes. Each block is split into groups of up to 8 bytes. Each group is shown with its leading
  zeros trimmed, as `"00"` when it is all zeros, and padded to an even length. The
  groups of a block are joined with `:`.
- **Trezor Safe 5** (`formatCalldataForTrezorSafe5`) prints a title, the size in
  bytes and `Page 1:`. It then cuts the hex text into windows. The first page takes
  windows of 9, 9, 9, 9, 9 and 7 bytes. Every later page takes 7, 9, 9, 9, 9 and 7
  bytes, and starts with its own `Page k:` label.

Both formatters first remove one optional `0x` prefix. They refuse text of odd
length. They then cut the text into two-character tokens with `/.{2}/g`.

The project has four modules:

- `Text` (`text.dfy`) covers the JavaScript built-ins the code relies on:
  - `slice` with clamped bounds;
  - `join` and `split` with one separator;
  - cutting an array into consecutive pieces with a stepping `for` loop;
  - writing a number in decimal.
- `HexNormalizer` (`normalizer.dfy`) is the shared normalisation step.
- `LedgerFlex` (`flex.dfy`) is the Ledger Flex formatter.
- `TrezorSafe5` (`safe5.dfy`) is the Trezor Safe 5 formatter.

Each formatter is a `method` with the source's loops. Its result is proved equal to
a declarative layout function: `FlexLines` for Ledger Flex, `Safe5Lines` for Trezor
Safe 5. The properties of the layouts are proved as lemmas about those functions.

`Safe5Lines` describes each page with a schedule of widths (`Cut`). The loops are
proved to follow that schedule. Every `take` moves the offset on by the full
width, even when the slice it returns is shorter.

The formatters return their lines, or an error, instead of printing them. The text
the source prints is those lines joined with `"\n"`.

The regular expression's `.` does not match line terminators, so a pair containing
one is skipped one character at a time. `MatchPairs` models that, and the
lossless-split facts (`MatchPairsConsecutive`, `NormalizeTokens`) are proved for text
without line terminators.

## Model

| member | source | states |
|---|---|---|
| HexNormalizer.StripPrefix | index.js:6 | At most one leading `0x` is removed. Text without one is left unchanged. |
| HexNormalizer.MatchPairs | index.js:9 | Every token `/.{2}/g` yields has two characters and no line terminator. |
| HexNormalizer.MatchPairsConsecutive | index.js:9 | Without line terminators, the match gives half as many tokens as characters (rounded down), token `i` is characters `2i` and `2i+1`, and together they give back `s` minus a trailing odd character. |
| HexNormalizer.Normalize | index.js:6-9 | Fails exactly when the text after the optional prefix has odd length. Otherwise it keeps that text, and every token has two characters. |
| HexNormalizer.NormalizeTokens | index.js:6-9 | Without line terminators, a successful normalisation gives `len/2` tokens, token `i` is the `i`-th pair, and together they give back the hex. Empty text gives no tokens. |
| LedgerFlex.StripSpec | index.js:25 | `replace(/^0+/, "")` leaves a suffix with only zeros before it, and an empty result or one not starting with `0`. |
| LedgerFlex.StripAllZeros | index.js:25 | Stripping leaves nothing exactly when the group is all zeros. |
| LedgerFlex.TrimSegmentShape | index.js:25-30 | A segment is non-empty and of even length. It is `"00"` exactly when its group is all zeros. |
| LedgerFlex.TrimThenPad | index.js:25-30 | Trimming comes before padding: stripping the segment gives what stripping the group gave. |
| LedgerFlex.TrimPadding | index.js:25-30 | A segment is the stripped group with the fewest zeros in front that make it even and non-empty: 2 characters if nothing is left, otherwise the length rounded up to even. |
| LedgerFlex.TrimSegmentBound | index.js:25-30 | A segment of an even, non-empty group is no longer than the group, and is made of zeros and the group's characters. |
| LedgerFlex.Segments | index.js:20-33 | One segment per group, in order, each the trimmed text of its group. |
| LedgerFlex.GroupSegment | index.js:22-30 | For 1 to 8 two-character tokens, the segment has 2 to 16 characters, is `"00"` exactly when the group is all zeros, strips like the group, and holds no `:` when the tokens hold none. |
| LedgerFlex.BlockSegmentsShape | index.js:17-35 | A block of 1 to 32 tokens gives `ceil(n/8)` segments, at most 4. Each is 2 to 16 characters, even, and `"00"` exactly when its group is zero. With no `:` in the tokens, splitting the line at `:` gives the segments back. |
| LedgerFlex.BlockLines | index.js:16-36 | One line per block, in order, each the block's segments joined by `:`. |
| LedgerFlex.FormatBlock | index.js:18-35 | The inner loop over groups of 8 gives exactly `BlockLine` of the block. |
| LedgerFlex.FormatLedgerFlex | index.js:5-39 | Fails exactly when the stripped text has odd length. Otherwise it returns exactly `FlexLines` of the normalised calldata. |
| LedgerFlex.FlexLayout | index.js:12-17 | The title, then the selector (the first `min(4,n)` tokens), then `ceil((n-4)/32)` block lines (none when `n <= 4`). Blocks are 1 to 32 tokens and all but the last are full. Selector and blocks together are every token once. Line `2+k` is block `k`'s segments joined by `:`. |
| LedgerFlex.FlexSegments | index.js:16-35 | On the formatter's output: line `2+k` is block `k`'s segments joined by `:`, at most 4 of them, each 2 to 16 characters, even, and `"00"` exactly when its group is all zeros. With no `:` in the tokens, splitting the line gives the segments back. |
| LedgerFlex.FlexEmpty | index.js:5-36 | Empty calldata, with or without prefix, gives the title and an empty selector line. |
| TrezorSafe5.CutCover | index.js:55-60 | A page's takes, written one after another, are the first `2·Sum(widths)` characters, or all that is left. |
| TrezorSafe5.CutWidths | index.js:55-60 | A page has no more windows than widths. Each window is non-empty and at most its width, all but the last are exactly their width, and a page with enough text left is complete. |
| TrezorSafe5.TakeNines | index.js:55-64 | The loop of `take(9)` calls gives `Takes(hex, start, 9, count)`. The offset ends `18·count` on, or past the end of the text. |
| TrezorSafe5.FirstPage | index.js:55-68 | The first page's loops give `FirstCut`. The offset ends at 104, or past the end of a shorter text. |
| TrezorSafe5.LaterPage | index.js:72-80 | A later page's loops give `LaterCut`. The offset moves on by at least 14, and ends 100 on or past the end of the text. |
| TrezorSafe5.FirstCutSchedule | index.js:62-68 | The first page's loops take windows of 9, 9, 9, 9, 9 and 7 bytes: `FirstCut` equals `Cut` with that schedule. |
| TrezorSafe5.LaterCutSchedule | index.js:72-80 | A later page's loops take windows of 7, 9, 9, 9, 9 and 7 bytes: `LaterCut` equals `Cut` with that schedule. |
| TrezorSafe5.FormatTrezorSafe5 | index.js:41-84 | Fails exactly when the stripped text has odd length. Otherwise it returns exactly `Safe5Lines` of the normalised calldata. The page loop ends because each turn moves the offset on by at least 14. |
| TrezorSafe5.LaterPagesShape | index.js:70-81 | Every later page fits 7, 9, 9, 9, 9, 7 (windows non-empty, at most their width, exact but for the last), and every later page but the last is shown in full. |
| TrezorSafe5.PagesShape | index.js:62-81 | Page 0 fits 9, 9, 9, 9, 9, 7 and later pages fit 7, 9, 9, 9, 9, 7. Windows are non-empty, at most their width, and exact except the last of the last page. Every page but the last is complete. |
| TrezorSafe5.LaterPagesCover | index.js:70-81 | The windows of the later pages, in order, are exactly the text after the first page. |
| TrezorSafe5.WindowsCover | index.js:53-81 | All windows, in order and without the header lines, are exactly the hex text: nothing lost, nothing repeated. |
| TrezorSafe5.LaterPagesCount | index.js:70-81 | Text of `m` characters after the first page gives `ceil(m/100)` later pages. |
| TrezorSafe5.PageCount | index.js:62-81 | No page for empty text, one up to 104 characters, then one more per further 100 characters or part of them. |
| TrezorSafe5.PageCountInBytes | index.js:48-81 | For `n` bytes, one page when `0 < n <= 52`, otherwise `1 + ceil((n-52)/50)`. |
| TrezorSafe5.Safe5Layout | index.js:49-81 | The output is the title, `Size: n bytes` and `Page 1:`, then the first page's windows, then for each later page in order its label `Page j:` (numbered from 2) followed by its windows. So it has every window and one label per page after the first, and nothing else; its length is 3 plus the windows plus the later pages. |
| TrezorSafe5.LabelledPages | index.js:70-72 | The labelled later pages are, page by page in order, the label with the page's own number followed by its windows. |
| TrezorSafe5.Safe5Empty | index.js:41-68 | Empty calldata, with or without prefix, gives the title, `Size: 0 bytes` and `Page 1:` only. |
| Text.ChunksSpec | index.js:16-22 | The stepping `for` loop's pieces, written one after another, are the input. Each piece is non-empty and at most `n` long, and all but the last are exactly `n`. |
| Text.SplitJoin | index.js:35 | `split(":")` undoes `join(":")` when no part contains the separator. |
| Text.NatToString | index.js:50-51 | A number in a template literal is non-empty decimal digits with no leading zero. |
| Text.DecimalRoundTrip | index.js:50-51 | Reading that decimal text back gives the number. |

## Left out

- The command line (index.js:86-103) and its `commander` option parsing are not part of this model.
- `console.log(lines.join("\n"))` is not modelled: the formatters return the lines, and the printed text is their join with `"\n"`.
- The error is one value, `InvalidHexLength`. The text of the thrown message is not modelled.
- The regular-expression engine is not modelled. `/.{2}/g` and `/^0+/` are given by what they match: `MatchPairs` and `StripLeadingZeros`.
- JavaScript strings are UTF-16 code units. The model uses Dafny characters, so text outside the Basic Multilingual Plane is counted differently.
- Hex digits are not checked, as in the source: any character gets through normalisation. A line terminator is left out of the tokens but stays in the stripped hex, which the Trezor Safe 5 formatter pages over.
- HexNormalizer.NormalizeTokens: proved only for input without line terminators. With them, `/.{2}/g` skips characters (as `MatchPairs` models), and the tokens no longer give back the hex.
- HexNormalizer.MatchPairsConsecutive: proved only for text without line terminators, for the same reason.
- LedgerFlex.BlockSegmentsShape: the `split` round trip is stated only for tokens without `:`. Hex digits never contain one, but the source does not check for hex digits, so a `:` in the input could end up inside a segment.
- TrezorSafe5.FormatTrezorSafe5: `Size: n bytes` counts the tokens, while paging counts characters of the hex text. The two agree (`n = |hex|/2`) only on text without line terminators. The model keeps both, as the source does.
