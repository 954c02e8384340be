/**
 Input normalisation of the hidden editable region: its `innerText` with every
 line feed removed (`replace(/\n/g, '')`) is what the trainer receives.
 */
module Normalise {

  /** The number of occurrences of `c` in `s`. */
  function Occurrences(s: string, c: char): (n: nat)
    ensures n <= |s|
  {
    if |s| == 0 then 0 else (if s[0] == c then 1 else 0) + Occurrences(s[1..], c)
  }

  /** The edited buffer with every '\n' removed. */
  function StripNewlines(s: string): (r: string)
    ensures '\n' !in r
    ensures |r| == |s| - Occurrences(s, '\n')
  {
    if |s| == 0 then ""
    else (if s[0] == '\n' then "" else [s[0]]) + StripNewlines(s[1..])
  }

  /** Stripping works piecewise: it distributes over concatenation. Together
      with the one-character case this says the result is the input with the
      line feeds dropped and every other character kept, in order. */
  lemma {:induction false} StripConcat(a: string, b: string)
    ensures StripNewlines(a + b) == StripNewlines(a) + StripNewlines(b)
  {
    if |a| == 0 {
      assert a + b == b;
    } else {
      assert (a + b)[0] == a[0];
      assert (a + b)[1..] == a[1..] + b;
      StripConcat(a[1..], b);
    }
  }

  /** A buffer without line feeds passes through unchanged. */
  lemma {:induction false} StripIdentity(s: string)
    requires '\n' !in s
    ensures StripNewlines(s) == s
  {
    if |s| > 0 {
      assert s[0] in s;
      assert forall c :: c in s[1..] ==> c in s;
      StripIdentity(s[1..]);
      assert s == [s[0]] + s[1..];
    }
  }

  /** Normalising twice is normalising once. */
  lemma StripIdempotent(s: string)
    ensures StripNewlines(StripNewlines(s)) == StripNewlines(s)
  {
    StripIdentity(StripNewlines(s));
  }

  /** The positions of `s` that hold something other than '\n', in increasing order. */
  function Kept(s: string): (ps: seq<nat>)
    ensures forall t :: 0 <= t < |ps| ==> ps[t] < |s|
  {
    if |s| == 0 then []
    else Kept(s[..|s| - 1]) + (if s[|s| - 1] == '\n' then [] else [|s| - 1])
  }

  /** Stripping a buffer extended by one character. */
  lemma StripSnoc(p: string, c: char)
    ensures StripNewlines(p + [c]) == StripNewlines(p) + (if c == '\n' then "" else [c])
  {
    StripConcat(p, [c]);
    assert StripNewlines([c]) == (if c == '\n' then "" else [c]);
  }

  /** One kept position per character of the normalised buffer. */
  lemma {:induction false} KeptLength(s: string)
    ensures |Kept(s)| == |StripNewlines(s)|
  {
    if |s| > 0 {
      var n := |s| - 1;
      KeptLength(s[..n]);
      assert s == s[..n] + [s[n]];
      StripSnoc(s[..n], s[n]);
    }
  }

  /** The kept positions hold the characters of the normalised buffer, in order. */
  lemma {:induction false} KeptChars(s: string)
    ensures |Kept(s)| == |StripNewlines(s)|
    ensures forall t :: 0 <= t < |Kept(s)| ==> s[Kept(s)[t]] == StripNewlines(s)[t]
  {
    KeptLength(s);
    if |s| > 0 {
      var n := |s| - 1;
      var p, c := s[..n], s[n];
      var ks, r := Kept(p), StripNewlines(p);
      KeptChars(p);
      assert s == p + [c];
      StripSnoc(p, c);
      if c == '\n' {
        assert Kept(s) == ks && StripNewlines(s) == r;
      } else {
        assert Kept(s) == ks + [n] && StripNewlines(s) == r + [c];
      }
      forall t | 0 <= t < |Kept(s)|
        ensures s[Kept(s)[t]] == StripNewlines(s)[t]
      {
        if t < |ks| {
          assert s[ks[t]] == p[ks[t]];
        }
      }
    }
  }

  /** The kept positions strictly increase. */
  lemma {:induction false} KeptIncreasing(s: string)
    ensures forall t, u :: 0 <= t < u < |Kept(s)| ==> Kept(s)[t] < Kept(s)[u]
  {
    if |s| > 0 {
      KeptIncreasing(s[..|s| - 1]);
    }
  }

  /** Every position that does not hold a '\n' is kept. */
  lemma {:induction false} KeptComplete(s: string)
    ensures forall p :: 0 <= p < |s| && s[p] != '\n' ==> p in Kept(s)
  {
    if |s| > 0 {
      var n := |s| - 1;
      KeptComplete(s[..n]);
      assert forall p :: 0 <= p < n ==> s[..n][p] == s[p];
    }
  }

  /** The normalised buffer is exactly the subsequence of `s` at the kept
      positions: one output character per non-newline input character, taken
      in input order, and every input position not kept holds a '\n'. */
  lemma StripIsSubsequence(s: string)
    ensures |Kept(s)| == |StripNewlines(s)|
    ensures forall t :: 0 <= t < |Kept(s)| ==> s[Kept(s)[t]] == StripNewlines(s)[t]
    ensures forall t, u :: 0 <= t < u < |Kept(s)| ==> Kept(s)[t] < Kept(s)[u]
    ensures forall p :: 0 <= p < |s| && s[p] != '\n' ==> p in Kept(s)
  {
    KeptChars(s);
    KeptIncreasing(s);
    KeptComplete(s);
  }
}
