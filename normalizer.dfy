/**
  The normalisation both formatters start with: drop an optional literal "0x", refuse
  an odd number of remaining characters, and cut the rest into two-character byte
  tokens with the regular expression `/.{2}/g`.
 */
module HexNormalizer {
  import opened Text

  /** The one error the core raises (the thrown "even length" error). */
  datatype Error = InvalidHexLength

  datatype Result<T> = Ok(value: T) | Err(error: Error)

  /** Normalised calldata: the hex digits without prefix, and its byte tokens. */
  datatype Calldata = Calldata(hex: string, bytes: seq<string>)

  predicate HasHexPrefix(s: string) { |s| >= 2 && s[..2] == "0x" }

  /** `if (hex.startsWith("0x")) hex = hex.slice(2)`: at most one prefix is removed. */
  function StripPrefix(raw: string): (r: string)
    ensures HasHexPrefix(raw) ==> raw == "0x" + r
    ensures !HasHexPrefix(raw) ==> r == raw
  {
    if HasHexPrefix(raw) then raw[2..] else raw
  }

  /** The characters that `.` in a JavaScript regular expression does not match. */
  predicate IsLineTerminator(c: char)
  {
    c == '\n' || c == '\r' || c == '\U{2028}' || c == '\U{2029}'
  }

  predicate NoLineTerminators(s: string)
  {
    forall i :: 0 <= i < |s| ==> !IsLineTerminator(s[i])
  }

  /** `s.match(/.{2}/g) || []`: scanning left to right, every two consecutive characters
      that are not line terminators form a token; a position where no match starts is
      skipped one character at a time. */
  function MatchPairs(s: string): (r: seq<string>)
    ensures forall i :: 0 <= i < |r| ==> |r[i]| == 2 && NoLineTerminators(r[i])
    decreases |s|
  {
    if |s| < 2 then []
    else if !IsLineTerminator(s[0]) && !IsLineTerminator(s[1]) then [s[..2]] + MatchPairs(s[2..])
    else MatchPairs(s[1..])
  }

  /** On text without line terminators the match is the plain split into consecutive
      pairs, losing at most a trailing odd character. */
  lemma {:induction false} MatchPairsConsecutive(s: string)
    requires NoLineTerminators(s)
    ensures |MatchPairs(s)| == |s| / 2
    ensures forall i :: 0 <= i < |MatchPairs(s)| ==> MatchPairs(s)[i] == s[2 * i..2 * i + 2]
    ensures Flatten(MatchPairs(s)) == s[..|s| - |s| % 2]
    decreases |s|
  {
    if |s| >= 2 {
      var t := s[2..];
      assert NoLineTerminators(t) by {
        forall i | 0 <= i < |t| ensures !IsLineTerminator(t[i]) {
          assert t[i] == s[i + 2];
        }
      }
      MatchPairsConsecutive(t);
      var r := MatchPairs(s);
      assert r == [s[..2]] + MatchPairs(t);
      assert r[1..] == MatchPairs(t);
      forall i | 0 <= i < |r| ensures r[i] == s[2 * i..2 * i + 2] {
        if i > 0 {
          assert r[i] == MatchPairs(t)[i - 1] == t[2 * (i - 1)..2 * (i - 1) + 2];
        }
      }
      assert s[..|s| - |s| % 2] == s[..2] + t[..|t| - |t| % 2];
    }
  }

  /** Both formatters' shared first step. It fails exactly when the text left after the
      optional prefix has odd length; otherwise it keeps that text and cuts it into
      two-character tokens. */
  function Normalize(raw: string): (r: Result<Calldata>)
    ensures r.Err? <==> |StripPrefix(raw)| % 2 == 1
    ensures r.Ok? ==> r.value.hex == StripPrefix(raw)
    ensures r.Ok? ==> forall i :: 0 <= i < |r.value.bytes| ==> |r.value.bytes[i]| == 2
  {
    var hex := StripPrefix(raw);
    if |hex| % 2 != 0 then Err(InvalidHexLength)
    else Ok(Calldata(hex, MatchPairs(hex)))
  }

  /** On input without line terminators a successful normalisation yields the
      consecutive pairs of the hex, `|hex| / 2` of them, which written one after another
      give back the hex; an empty input gives no tokens. */
  lemma NormalizeTokens(raw: string)
    requires NoLineTerminators(raw)
    requires Normalize(raw).Ok?
    ensures var c := Normalize(raw).value;
      && |c.bytes| == |c.hex| / 2
      && Flatten(c.bytes) == c.hex
      && forall i :: 0 <= i < |c.bytes| ==> c.bytes[i] == c.hex[2 * i..2 * i + 2]
  {
    var hex := StripPrefix(raw);
    assert NoLineTerminators(hex) by {
      if HasHexPrefix(raw) {
        forall i | 0 <= i < |hex| ensures !IsLineTerminator(hex[i]) {
          assert hex[i] == raw[i + 2];
        }
      }
    }
    MatchPairsConsecutive(hex);
  }
}
