/**
  Sequence and string helpers standing in for the JavaScript built-ins that the two
  formatters lean on: `slice` with clamped bounds, `join`, cutting an array into
  fixed-size pieces, `split` (the inverse of `join`), and the decimal rendering of a
  number inside a template literal.
 */
module Text {

  function Min(a: int, b: int): int { if a <= b then a else b }

  /** `s.slice(from, to)` for non-negative bounds: both bounds are clamped to the
      length, and a range that does not start before its end is empty. */
  function Slice<T>(s: seq<T>, from: nat, to: nat): (r: seq<T>)
  {
    if from < Min(to, |s|) then s[from..Min(to, |s|)] else []
  }

  /** `s.slice(k)`: everything from position `k` on, empty once `k` passes the end. */
  function Drop<T>(s: seq<T>, k: nat): (r: seq<T>)
  {
    s[Min(k, |s|)..]
  }

  lemma DropDrop<T>(s: seq<T>, a: nat, b: nat)
    ensures Drop(Drop(s, a), b) == Drop(s, a + b)
  {
  }

  /** Past the end, every drop is empty. */
  lemma DropPast<T>(s: seq<T>, a: nat, b: nat)
    requires |s| <= a <= b
    ensures Drop(s, a) == [] && Drop(s, b) == []
  {
  }

  /** Cutting `k` elements off the front of `s` splits it into a slice and a drop. */
  lemma SliceDrop<T>(s: seq<T>, from: nat, k: nat)
    requires from < |s|
    ensures Slice(Drop(s, from), 0, k) == Slice(s, from, from + k)
    ensures Drop(Drop(s, from), k) == Drop(s, from + k)
  {
  }

  /** A prefix of `w + m` elements is the first `w` followed by `m` more. */
  lemma PrefixStep<T>(s: seq<T>, w: nat, m: nat)
    ensures s[..Min(w + m, |s|)] == Slice(s, 0, w) + Drop(s, w)[..Min(m, |Drop(s, w)|)]
  {
    if w < |s| {
      assert Slice(s, 0, w) == s[..w] && Drop(s, w) == s[w..];
      assert s[..Min(w + m, |s|)] == s[..w] + s[w..][..Min(m, |s| - w)];
    } else {
      assert Slice(s, 0, w) == s[..Min(w + m, |s|)];
      assert Drop(s, w) == [];
    }
  }

  lemma AppendAssoc<T>(a: seq<T>, b: seq<T>, c: seq<T>)
    ensures (a + b) + c == a + (b + c)
  {
  }

  /** `parts.join("")`: the parts written one after another. */
  function Flatten<T>(parts: seq<seq<T>>): seq<T>
  {
    if parts == [] then [] else parts[0] + Flatten(parts[1..])
  }

  lemma {:induction false} FlattenAppend<T>(a: seq<seq<T>>, b: seq<seq<T>>)
    ensures Flatten(a + b) == Flatten(a) + Flatten(b)
  {
    if a == [] {
      assert a + b == b;
    } else {
      assert (a + b)[1..] == a[1..] + b;
      FlattenAppend(a[1..], b);
    }
  }

  /** When every part has length `w`, the flattened sequence has `w` elements per part. */
  lemma {:induction false} FlattenUniform<T>(parts: seq<seq<T>>, w: nat)
    requires forall i :: 0 <= i < |parts| ==> |parts[i]| == w
    ensures |Flatten(parts)| == w * |parts|
  {
    if parts != [] {
      FlattenUniform(parts[1..], w);
    }
  }

  /** The loop `for (i = 0; i < s.length; i += n) s.slice(i, i + n)`: consecutive
      pieces of `n` elements, the last one possibly shorter. */
  function Chunks<T>(s: seq<T>, n: nat): seq<seq<T>>
    requires n > 0
    decreases |s|
  {
    if s == [] then [] else [Slice(s, 0, n)] + Chunks(Drop(s, n), n)
  }

  /** Chunking loses nothing and adds nothing: the pieces, written one after another,
      are the input; every piece is non-empty and at most `n` long, and all but the last
      are exactly `n` long. */
  lemma {:induction false} ChunksSpec<T>(s: seq<T>, n: nat)
    requires n > 0
    ensures Flatten(Chunks(s, n)) == s
    ensures forall i :: 0 <= i < |Chunks(s, n)| ==> 0 < |Chunks(s, n)[i]| <= n
    ensures forall i :: 0 <= i < |Chunks(s, n)| - 1 ==> |Chunks(s, n)[i]| == n
    decreases |s|
  {
    if s != [] {
      var r := Chunks(s, n);
      ChunksSpec(Drop(s, n), n);
      assert r[1..] == Chunks(Drop(s, n), n);
      assert s == Slice(s, 0, n) + Drop(s, n);
    }
  }

  /** One more turn of the chunking loop at position `i`. */
  lemma ChunksStep<T>(s: seq<T>, i: nat, n: nat)
    requires n > 0 && i < |s|
    ensures Chunks(Drop(s, i), n) == [Slice(s, i, i + n)] + Chunks(Drop(s, i + n), n)
  {
    SliceDrop(s, i, n);
  }

  /** `parts.join(sep)` for a one-character separator. */
  function Join(parts: seq<string>, sep: char): string
  {
    if |parts| == 0 then ""
    else if |parts| == 1 then parts[0]
    else parts[0] + [sep] + Join(parts[1..], sep)
  }

  /** `s.split(sep)` for a one-character separator: the pieces between separators, always
      at least one. */
  function Split(s: string, sep: char): (r: seq<string>)
    ensures |r| > 0
  {
    if s == [] then [""]
    else if s[0] == sep then [""] + Split(s[1..], sep)
    else
      var t := Split(s[1..], sep);
      [[s[0]] + t[0]] + t[1..]
  }

  lemma {:induction false} SplitPlain(a: string, sep: char)
    requires sep !in a
    ensures Split(a, sep) == [a]
  {
    if a != [] {
      assert a[0] != sep && sep !in a[1..];
      SplitPlain(a[1..], sep);
      assert [a[0]] + a[1..] == a;
    }
  }

  lemma {:induction false} SplitAt(a: string, sep: char, b: string)
    requires sep !in a
    ensures Split(a + [sep] + b, sep) == [a] + Split(b, sep)
  {
    if a == [] {
      assert a + [sep] + b == [sep] + b;
      assert ([sep] + b)[1..] == b;
    } else {
      assert (a + [sep] + b)[1..] == a[1..] + [sep] + b;
      SplitAt(a[1..], sep, b);
      assert [a[0]] + a[1..] == a;
    }
  }

  /** `split` undoes `join` when no part contains the separator. */
  lemma {:induction false} SplitJoin(parts: seq<string>, sep: char)
    requires |parts| > 0
    requires forall i :: 0 <= i < |parts| ==> sep !in parts[i]
    ensures Split(Join(parts, sep), sep) == parts
  {
    if |parts| == 1 {
      SplitPlain(parts[0], sep);
    } else {
      SplitJoin(parts[1..], sep);
      SplitAt(parts[0], sep, Join(parts[1..], sep));
      assert [parts[0]] + parts[1..] == parts;
    }
  }

  predicate IsDigit(c: char) { '0' <= c <= '9' }

  function DigitChar(d: nat): (c: char)
    requires d < 10
    ensures IsDigit(c) && c as int - '0' as int == d
  {
    ('0' as int + d) as char
  }

  /** A number in a template literal: its shortest decimal spelling. */
  function NatToString(n: nat): (r: string)
    ensures |r| > 0
    ensures forall i :: 0 <= i < |r| ==> IsDigit(r[i])
    ensures |r| > 1 ==> r[0] != '0'
  {
    if n < 10 then [DigitChar(n)] else NatToString(n / 10) + [DigitChar(n % 10)]
  }

  /** The value of a string of decimal digits. */
  function DecimalValue(s: string): nat
    requires forall i :: 0 <= i < |s| ==> IsDigit(s[i])
  {
    if s == [] then 0
    else
      assert IsDigit(s[|s| - 1]);
      10 * DecimalValue(s[..|s| - 1]) + (s[|s| - 1] as int - '0' as int)
  }

  /** Reading the decimal spelling back gives the number. */
  lemma {:induction false} DecimalRoundTrip(n: nat)
    ensures DecimalValue(NatToString(n)) == n
  {
    if n >= 10 {
      var s := NatToString(n);
      assert s[..|s| - 1] == NatToString(n / 10);
      DecimalRoundTrip(n / 10);
    }
  }
}
