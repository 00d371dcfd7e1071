/**
  The Ledger Flex layout: a title, the selector (the first four bytes written out),
  then one line per 32-byte block of the remaining bytes, each block shown as up to
  four colon-separated segments of eight bytes with their leading zeros trimmed.
 */
module LedgerFlex {
  import opened Text
  import opened HexNormalizer

  const Title := "\n\nLedger Flex Format:\n"

  predicate AllZeros(s: string)
  {
    forall i :: 0 <= i < |s| ==> s[i] == '0'
  }

  /** `s.replace(/^0+/, "")`: what is left is a suffix of `s` with only zeros before it,
      and it is empty or starts with another character. */
  function StripLeadingZeros(s: string): string
    decreases |s|
  {
    if s != [] && s[0] == '0' then StripLeadingZeros(s[1..]) else s
  }

  lemma {:induction false} StripSpec(s: string)
    ensures var r := StripLeadingZeros(s);
      && |r| <= |s| && r == s[|s| - |r|..] && AllZeros(s[..|s| - |r|])
      && (r == [] || r[0] != '0')
    decreases |s|
  {
    if s != [] && s[0] == '0' {
      StripSpec(s[1..]);
      var r := StripLeadingZeros(s);
      assert s[1..][|s| - 1 - |r|..] == s[|s| - |r|..];
      assert forall i :: 0 <= i < |s| - |r| ==> s[..|s| - |r|][i] == s[i];
      assert forall i :: 1 <= i < |s| - |r| ==> s[i] == s[1..][..|s| - 1 - |r|][i - 1];
    }
  }

  /** Nothing is left exactly when the string is all zeros. */
  lemma StripAllZeros(s: string)
    ensures StripLeadingZeros(s) == [] <==> AllZeros(s)
  {
    StripSpec(s);
  }

  lemma StripNothing(s: string)
    requires s == [] || s[0] != '0'
    ensures StripLeadingZeros(s) == s
  {
  }

  lemma StripPadded(t: string)
    requires t != [] && t[0] != '0'
    ensures StripLeadingZeros(['0'] + t) == t
  {
    assert (['0'] + t)[1..] == t;
  }

  /** How one eight-byte group is shown: strip the leading zeros, write "00" when nothing
      is left, and pad an odd length with one zero in front. */
  function TrimSegment(group: string): string
  {
    var trimmed := if StripLeadingZeros(group) == "" then "00" else StripLeadingZeros(group);
    if |trimmed| % 2 != 0 then "0" + trimmed else trimmed
  }

  /** A segment is a non-empty whole number of bytes, and it is "00" exactly when its
      group is all zeros. */
  lemma TrimSegmentShape(group: string)
    ensures var seg := TrimSegment(group);
      && |seg| > 0 && |seg| % 2 == 0
      && (seg == "00" <==> AllZeros(group))
  {
    StripSpec(group);
    StripAllZeros(group);
    var t := StripLeadingZeros(group);
    if t != "" {
      var seg := TrimSegment(group);
      assert seg != "00" by {
        if |t| % 2 != 0 {
          assert seg == "0" + t;
          assert seg[1] == t[0];
        } else {
          assert seg == t;
        }
      }
    }
  }

  /** Trimming comes first and padding second: stripping the segment's own leading zeros
      gives exactly what stripping the group's gave. */
  lemma TrimThenPad(group: string)
    ensures StripLeadingZeros(TrimSegment(group)) == StripLeadingZeros(group)
  {
    StripSpec(group);
    var t := StripLeadingZeros(group);
    var seg := TrimSegment(group);
    if t == "" {
      assert seg == "00";
      assert StripLeadingZeros("00") == "";
    } else if |t| % 2 != 0 {
      assert seg == ['0'] + t;
      StripPadded(t);
    } else {
      assert seg == t;
      StripNothing(t);
    }
  }

  /** The segment is the stripped group with the fewest zeros in front that make its
      length even and positive. */
  lemma TrimPadding(group: string)
    ensures var seg, t := TrimSegment(group), StripLeadingZeros(group);
      && seg[|seg| - |t|..] == t && AllZeros(seg[..|seg| - |t|])
      && |seg| == (if t == [] then 2 else |t| + |t| % 2)
  {
    var t := StripLeadingZeros(group);
    var seg := TrimSegment(group);
    if t == "" {
      assert seg == "00" && seg[..2] == "00" && seg[2..] == t;
    } else if |t| % 2 != 0 {
      assert seg == ['0'] + t;
      assert seg[1..] == t && seg[..1] == "0";
    } else {
      assert seg == t && seg[..0] == [];
    }
  }

  /** A segment is never longer than its group when the group is a whole, non-zero number
      of bytes, and its characters are zeros or characters of the group. */
  lemma TrimSegmentBound(group: string)
    ensures |group| > 0 && |group| % 2 == 0 ==> |TrimSegment(group)| <= |group|
    ensures forall i :: 0 <= i < |TrimSegment(group)| ==>
      TrimSegment(group)[i] == '0' || TrimSegment(group)[i] in group
  {
    StripSpec(group);
    var t := StripLeadingZeros(group);
    assert forall i :: 0 <= i < |t| ==> t[i] == group[|group| - |t| + i];
  }

  /** `segments.push(trimmed)` for every group of a block, in order. */
  function Segments(groups: seq<seq<string>>): (r: seq<string>)
    ensures |r| == |groups|
    ensures forall q :: 0 <= q < |r| ==> r[q] == TrimSegment(Flatten(groups[q]))
  {
    if groups == [] then []
    else
      var rest := Segments(groups[1..]);
      var r := [TrimSegment(Flatten(groups[0]))] + rest;
      assert forall q :: 0 < q < |r| ==> r[q] == rest[q - 1] && groups[q] == groups[1..][q - 1];
      r
  }

  lemma SegmentsCons(group: seq<string>, others: seq<seq<string>>)
    ensures Segments([group] + others) == [TrimSegment(Flatten(group))] + Segments(others)
  {
    assert ([group] + others)[1..] == others;
  }

  /** The segments of one block: one per group of up to eight bytes. */
  function BlockSegments(block: seq<string>): seq<string>
  {
    Segments(Chunks(block, 8))
  }

  /** `segments.join(":")` */
  function BlockLine(block: seq<string>): string
  {
    Join(BlockSegments(block), ':')
  }

  function BlockLines(blocks: seq<seq<string>>): (r: seq<string>)
    ensures |r| == |blocks|
    ensures forall k :: 0 <= k < |r| ==> r[k] == BlockLine(blocks[k])
  {
    if blocks == [] then [] else [BlockLine(blocks[0])] + BlockLines(blocks[1..])
  }

  lemma BlockLinesCons(block: seq<string>, others: seq<seq<string>>)
    ensures BlockLines([block] + others) == [BlockLine(block)] + BlockLines(others)
  {
    assert ([block] + others)[1..] == others;
  }

  /** `bytes.slice(0, 4).join("")` */
  function Selector(c: Calldata): string
  {
    Flatten(Slice(c.bytes, 0, 4))
  }

  /** The 32-byte blocks of `bytes.slice(4)`. */
  function Blocks(c: Calldata): seq<seq<string>>
  {
    Chunks(Drop(c.bytes, 4), 32)
  }

  /** The lines the Ledger Flex formatter prints, one after another. */
  function FlexLines(c: Calldata): seq<string>
  {
    [Title, Selector(c)] + BlockLines(Blocks(c))
  }

  /** The inner loop of `formatCalldataForLedgerFlex` (lines 18-35): one block's
      segments, each a trimmed group of up to eight bytes, joined with colons. */
  method FormatBlock(chunk32: seq<string>) returns (line: string)
    ensures line == BlockLine(chunk32)
  {
    var segments := [];
    var j := 0;
    assert Drop(chunk32, 0) == chunk32;
    while j < |chunk32|
      invariant segments + Segments(Chunks(Drop(chunk32, j), 8)) == BlockSegments(chunk32)
      decreases |chunk32| - j
    {
      var chunk8Str := Flatten(Slice(chunk32, j, j + 8));
      ghost var others := Chunks(Drop(chunk32, j + 8), 8);
      ChunksStep(chunk32, j, 8);
      SegmentsCons(Slice(chunk32, j, j + 8), others);
      AppendAssoc(segments, [TrimSegment(chunk8Str)], Segments(others));
      segments := segments + [TrimSegment(chunk8Str)];
      j := j + 8;
    }
    assert Drop(chunk32, j) == [];
    assert segments + Segments(Chunks(Drop(chunk32, j), 8)) == segments;
    line := Join(segments, ':');
  }

  /** `formatCalldataForLedgerFlex`, returning its lines instead of printing them joined
      with newlines. It fails exactly when normalisation does, and otherwise yields the
      layout `FlexLines` describes. */
  method FormatLedgerFlex(raw: string) returns (r: Result<seq<string>>)
    ensures r.Err? <==> |StripPrefix(raw)| % 2 == 1
    ensures r.Ok? ==> Normalize(raw).Ok? && r.value == FlexLines(Normalize(raw).value)
  {
    var normalized := Normalize(raw);
    if normalized.Err? {
      return Err(normalized.error);
    }
    ghost var c := normalized.value;
    var bytes := normalized.value.bytes;
    var lines := [Title];
    lines := lines + [Flatten(Slice(bytes, 0, 4))];

    var rest := Drop(bytes, 4);
    var i := 0;
    assert Drop(rest, 0) == rest;
    assert lines == [Title, Selector(c)];
    while i < |rest|
      invariant lines + BlockLines(Chunks(Drop(rest, i), 32)) == FlexLines(c)
      decreases |rest| - i
    {
      var chunk32 := Slice(rest, i, i + 32);
      ghost var later := Chunks(Drop(rest, i + 32), 32);
      ChunksStep(rest, i, 32);
      BlockLinesCons(chunk32, later);
      var line := FormatBlock(chunk32);
      AppendAssoc(lines, [line], BlockLines(later));
      lines := lines + [line];
      i := i + 32;
    }
    assert Drop(rest, i) == [];
    assert lines + BlockLines(Chunks(Drop(rest, i), 32)) == lines;
    return Ok(lines);
  }

  /** The overall shape: the title, the selector made of the first `min(4, n)` bytes,
      then one line per 32-byte block of the rest, `ceil((n - 4) / 32)` of them and none
      when `n <= 4`; selector and blocks together hold every byte exactly once. */
  lemma FlexLayout(c: Calldata)
    ensures |FlexLines(c)| == 2 + |Blocks(c)|
    ensures FlexLines(c)[0] == Title
    ensures FlexLines(c)[1] == Flatten(c.bytes[..Min(4, |c.bytes|)])
    ensures |Blocks(c)| == if |c.bytes| <= 4 then 0 else (|c.bytes| - 4 + 31) / 32
    ensures c.bytes == c.bytes[..Min(4, |c.bytes|)] + Flatten(Blocks(c))
    ensures forall k :: 0 <= k < |Blocks(c)| ==> 0 < |Blocks(c)[k]| <= 32
    ensures forall k :: 0 <= k < |Blocks(c)| - 1 ==> |Blocks(c)[k]| == 32
    ensures forall k :: 0 <= k < |Blocks(c)| ==> FlexLines(c)[2 + k] == Join(BlockSegments(Blocks(c)[k]), ':')
  {
    var rest := Drop(c.bytes, 4);
    BlockCount(rest);
    ChunksSpec(rest, 32);
    assert Slice(c.bytes, 0, 4) == c.bytes[..Min(4, |c.bytes|)];
  }

  /** Empty calldata, with or without the prefix, shows the title and an empty selector
      line, and no block line. */
  lemma FlexEmpty(raw: string)
    requires raw == "" || raw == "0x"
    ensures Normalize(raw) == Ok(Calldata("", []))
    ensures FlexLines(Normalize(raw).value) == [Title, ""]
  {
  }

  /** One block line: `ceil(|block| / 8)` segments, at most four, each a non-empty, even
      run of at most 16 characters that is "00" exactly when its group is all zeros and
      otherwise keeps the group's digits after its leading zeros; when no byte token
      holds a colon, splitting the line at its colons gives back the segments. */
  lemma BlockSegmentsShape(block: seq<string>)
    requires 0 < |block| <= 32
    requires forall x :: x in block ==> |x| == 2
    ensures |BlockSegments(block)| == (|block| + 7) / 8 <= 4
    ensures forall q :: 0 <= q < |BlockSegments(block)| ==>
      var seg, group := BlockSegments(block)[q], Flatten(Chunks(block, 8)[q]);
      && 0 < |seg| <= 16 && |seg| % 2 == 0
      && (seg == "00" <==> AllZeros(group))
      && StripLeadingZeros(seg) == StripLeadingZeros(group)
    ensures (forall x :: x in block ==> ':' !in x) ==>
      Split(BlockLine(block), ':') == BlockSegments(block)
  {
    var groups := Chunks(block, 8);
    GroupCount(block);
    ChunksSpec(block, 8);
    forall q | 0 <= q < |groups|
      ensures var seg, group := BlockSegments(block)[q], Flatten(groups[q]);
        && 0 < |seg| <= 16 && |seg| % 2 == 0
        && (seg == "00" <==> AllZeros(group))
        && StripLeadingZeros(seg) == StripLeadingZeros(group)
        && ((forall x :: x in block ==> ':' !in x) ==> ':' !in seg)
    {
      GroupOfBlock(block, q);
      GroupSegment(groups[q]);
    }
    if forall x :: x in block ==> ':' !in x {
      SplitJoin(BlockSegments(block), ':');
    }
  }

  /** One group of up to eight two-character tokens gives a segment of at most 16
      characters, with no colon unless a token had one. */
  lemma GroupSegment(group: seq<string>)
    requires 0 < |group| <= 8
    requires forall x :: x in group ==> |x| == 2
    ensures var seg, text := TrimSegment(Flatten(group)), Flatten(group);
      && 0 < |seg| <= 16 && |seg| % 2 == 0
      && (seg == "00" <==> AllZeros(text))
      && StripLeadingZeros(seg) == StripLeadingZeros(text)
      && ((forall x :: x in group ==> ':' !in x) ==> ':' !in seg)
  {
    var text := Flatten(group);
    FlattenUniform(group, 2);
    TrimSegmentShape(text);
    TrimThenPad(text);
    TrimSegmentBound(text);
    if forall x :: x in group ==> ':' !in x {
      NoColonFlatten(group);
    }
  }

  /** A block holds 32 bytes, so there are `ceil(|s| / 32)` blocks. */
  lemma {:induction false} BlockCount(s: seq<string>)
    ensures |Chunks(s, 32)| == (|s| + 31) / 32
    decreases |s|
  {
    if |s| > 32 {
      BlockCount(Drop(s, 32));
      assert Chunks(s, 32)[1..] == Chunks(Drop(s, 32), 32);
    }
  }

  /** A group holds 8 bytes, so there are `ceil(|s| / 8)` groups. */
  lemma {:induction false} GroupCount(s: seq<string>)
    ensures |Chunks(s, 8)| == (|s| + 7) / 8
    decreases |s|
  {
    if |s| > 8 {
      GroupCount(Drop(s, 8));
      assert Chunks(s, 8)[1..] == Chunks(Drop(s, 8), 8);
    }
  }

  /** Every token of a group is a token of its block. */
  lemma GroupOfBlock(block: seq<string>, q: nat)
    requires q < |Chunks(block, 8)|
    ensures forall x :: x in Chunks(block, 8)[q] ==> x in block
  {
    ChunksSpec(block, 8);
    PartOfFlatten(Chunks(block, 8), q);
  }

  /** The segment rules, stated on the formatter's own output: line `2 + k` of a
      successful run is block `k`'s segments joined by `:`, at most four of them, each
      of 2 to 16 characters, of even length and `"00"` exactly when its group of bytes
      is all zeros; with no `:` in the tokens, splitting the line gives them back. */
  lemma FlexSegments(raw: string, k: nat)
    requires Normalize(raw).Ok?
    requires k < |Blocks(Normalize(raw).value)|
    ensures var c := Normalize(raw).value;
      var block, line := Blocks(c)[k], FlexLines(c)[2 + k];
      var segs := BlockSegments(block);
      && line == Join(segs, ':')
      && |segs| == (|block| + 7) / 8 <= 4
      && (forall q :: 0 <= q < |segs| ==>
            && 0 < |segs[q]| <= 16 && |segs[q]| % 2 == 0
            && (segs[q] == "00" <==> AllZeros(Flatten(Chunks(block, 8)[q]))))
      && ((forall x :: x in c.bytes ==> ':' !in x) ==> Split(line, ':') == segs)
  {
    var c := Normalize(raw).value;
    FlexLayout(c);
    PartOfFlatten(Blocks(c), k);
    var block := Blocks(c)[k];
    assert forall x :: x in block ==> x in c.bytes;
    BlockSegmentsShape(block);
  }

  lemma {:induction false} PartOfFlatten<T>(parts: seq<seq<T>>, q: nat)
    requires q < |parts|
    ensures forall x :: x in parts[q] ==> x in Flatten(parts)
  {
    if q > 0 {
      PartOfFlatten(parts[1..], q - 1);
    }
  }

  lemma {:induction false} NoColonFlatten(tokens: seq<string>)
    requires forall x :: x in tokens ==> ':' !in x
    ensures ':' !in Flatten(tokens)
  {
    if tokens != [] {
      assert tokens[0] in tokens;
      NoColonFlatten(tokens[1..]);
    }
  }
}
