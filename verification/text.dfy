/**
 Word layout of the practice text: the `split(' ')` / `join(' ')` pair the
 trainer relies on, and the offset arithmetic the renderer uses to map a
 (word, character) pair back to a position of the text.
 */
module Text {

  /** True if `w` holds no space, so it is one word of the text. */
  predicate SpaceFree(w: string) {
    ' ' !in w
  }

  /** The index of the first space of `s`, or `|s|` when there is none. */
  function FirstSpace(s: string): (i: nat)
    ensures i <= |s|
  {
    if |s| == 0 || s[0] == ' ' then 0 else 1 + FirstSpace(s[1..])
  }

  /** `FirstSpace` stops at the first space: none before it, a space at it. */
  lemma {:induction false} FirstSpaceIsFirst(s: string)
    ensures forall j :: 0 <= j < FirstSpace(s) ==> s[j] != ' '
    ensures FirstSpace(s) < |s| ==> s[FirstSpace(s)] == ' '
  {
    if |s| > 0 && s[0] != ' ' {
      FirstSpaceIsFirst(s[1..]);
    }
  }

  /** `s.split(' ')`: the pieces between consecutive spaces. Like the
      JavaScript method it never returns an empty list ("" splits to [""]). */
  function Split(s: string): (parts: seq<string>)
    ensures |parts| >= 1
    decreases |s|
  {
    var i := FirstSpace(s);
    if i == |s| then [s] else [s[..i]] + Split(s[i + 1..])
  }

  /** No piece of a split holds a space. */
  lemma {:induction false} SplitSpaceFree(s: string)
    ensures forall k :: 0 <= k < |Split(s)| ==> SpaceFree(Split(s)[k])
    decreases |s|
  {
    var i := FirstSpace(s);
    FirstSpaceIsFirst(s);
    assert forall j :: 0 <= j < i ==> s[..i][j] != ' ';
    if i < |s| {
      SplitUnfold(s, i);
      SplitSpaceFree(s[i + 1..]);
    }
  }

  /** Sum of the lengths of `words`. */
  function TotalLength(words: seq<string>): nat {
    if |words| == 0 then 0 else |words[0]| + TotalLength(words[1..])
  }

  /** `words.join(' ')`; the empty list joins to "". */
  function Join(words: seq<string>): (s: string)
    ensures |words| >= 1 ==> |s| == TotalLength(words) + |words| - 1
  {
    if |words| == 0 then ""
    else if |words| == 1 then words[0]
    else words[0] + " " + Join(words[1..])
  }

  /** The left fold `ws.reduce((acc, w) => acc + w.length + 1, 0)`. */
  function Reduce(ws: seq<string>): nat {
    if |ws| == 0 then 0 else Reduce(ws[..|ws| - 1]) + |ws[|ws| - 1]| + 1
  }

  /** The renderer's `wordStartIndex`: the fold over `words.slice(0, k)`. */
  function WordStart(words: seq<string>, k: nat): nat
    requires k <= |words|
  {
    Reduce(words[..k])
  }

  lemma {:induction false} FirstSpaceOfSpaceFree(s: string)
    requires SpaceFree(s)
    ensures FirstSpace(s) == |s|
  {
    FirstSpaceIsFirst(s);
  }

  /** Splitting a join of space-free words gives the words back. */
  lemma {:induction false} SplitJoin(words: seq<string>)
    requires |words| >= 1
    requires forall k :: 0 <= k < |words| ==> SpaceFree(words[k])
    ensures Split(Join(words)) == words
  {
    if |words| == 1 {
      FirstSpaceOfSpaceFree(words[0]);
    } else {
      var w := words[0];
      var rest := Join(words[1..]);
      var s := Join(words);
      assert s == w + " " + rest;
      var i := FirstSpace(s);
      FirstSpaceIsFirst(s);
      assert s[|w|] == ' ';
      assert i == |w|;
      assert s[..i] == w;
      assert s[i + 1..] == rest;
      SplitJoin(words[1..]);
      assert words == [w] + words[1..];
    }
  }

  /** Joining the pieces of a split gives the text back. */
  lemma {:induction false} JoinSplit(s: string)
    ensures Join(Split(s)) == s
    decreases |s|
  {
    var i := FirstSpace(s);
    if i == |s| {
      assert Split(s) == [s];
    } else {
      var head, rest := s[..i], s[i + 1..];
      FirstSpaceIsFirst(s);
      SplitUnfold(s, i);
      JoinSplit(rest);
      JoinCons(head, Split(rest));
      SplitAround(s, i);
    }
  }

  lemma SplitAround(s: string, i: nat)
    requires i < |s| && s[i] == ' '
    ensures s == s[..i] + " " + s[i + 1..]
  {
  }

  lemma SplitUnfold(s: string, i: nat)
    requires i == FirstSpace(s) && i < |s|
    ensures Split(s) == [s[..i]] + Split(s[i + 1..])
  {
  }

  lemma JoinCons(w: string, ws: seq<string>)
    requires |ws| >= 1
    ensures Join([w] + ws) == w + " " + Join(ws)
  {
    assert ([w] + ws)[1..] == ws;
  }

  /** The number of spaces in `s`. */
  function Spaces(s: string): nat {
    if |s| == 0 then 0 else (if s[0] == ' ' then 1 else 0) + Spaces(s[1..])
  }

  lemma {:induction false} SpacesAppend(a: string, b: string)
    ensures Spaces(a + b) == Spaces(a) + Spaces(b)
  {
    if |a| > 0 {
      assert (a + b)[1..] == a[1..] + b;
      SpacesAppend(a[1..], b);
    } else {
      assert a + b == b;
    }
  }

  lemma {:induction false} SpacesOfSpaceFree(s: string)
    requires SpaceFree(s)
    ensures Spaces(s) == 0
  {
    if |s| > 0 {
      assert s[0] in s;
      assert forall c :: c in s[1..] ==> c in s;
      SpacesOfSpaceFree(s[1..]);
    }
  }

  /** The number of pieces is one more than the number of spaces. */
  lemma {:induction false} SplitCount(s: string)
    ensures |Split(s)| == Spaces(s) + 1
    decreases |s|
  {
    var i := FirstSpace(s);
    FirstSpaceIsFirst(s);
    assert forall j :: 0 <= j < i ==> s[..i][j] != ' ';
    assert SpaceFree(s[..i]);
    SpacesOfSpaceFree(s[..i]);
    if i == |s| {
      assert s[..i] == s;
    } else {
      var rest := s[i + 1..];
      SplitCount(rest);
      assert s == s[..i] + ([' '] + rest);
      SpacesAppend(s[..i], [' '] + rest);
      assert ([' '] + rest)[1..] == rest;
    }
  }

  lemma {:induction false} TotalLengthSnoc(ws: seq<string>, w: string)
    ensures TotalLength(ws + [w]) == TotalLength(ws) + |w|
  {
    if |ws| == 0 {
      assert ws + [w] == [w];
      assert [w][1..] == [];
    } else {
      assert (ws + [w])[1..] == ws[1..] + [w];
      TotalLengthSnoc(ws[1..], w);
    }
  }

  lemma {:induction false} ReduceIsSum(ws: seq<string>)
    ensures Reduce(ws) == TotalLength(ws) + |ws|
  {
    if |ws| > 0 {
      var p := ws[..|ws| - 1];
      ReduceIsSum(p);
      TotalLengthSnoc(p, ws[|ws| - 1]);
      assert p + [ws[|ws| - 1]] == ws;
    }
  }

  /** The start offset of word `k` is the total length of the words before it
      plus one separating space for each of them. */
  lemma WordStartIsSum(words: seq<string>, k: nat)
    requires k <= |words|
    ensures WordStart(words, k) == TotalLength(words[..k]) + k
  {
    ReduceIsSum(words[..k]);
  }

  /** Word `k + 1` starts one space after word `k` ends. */
  lemma WordStartStep(words: seq<string>, k: nat)
    requires k < |words|
    ensures WordStart(words, k + 1) == WordStart(words, k) + |words[k]| + 1
  {
    assert words[..k + 1][..k] == words[..k];
  }

  /** Offsets of a list are those of its tail shifted past the first word. */
  lemma WordStartCons(words: seq<string>, k: nat)
    requires 1 <= k <= |words|
    ensures WordStart(words, k) == |words[0]| + 1 + WordStart(words[1..], k - 1)
  {
    WordStartIsSum(words, k);
    WordStartIsSum(words[1..], k - 1);
    assert words[..k][1..] == words[1..][..k - 1];
  }

  /** Word starts strictly increase, each past the end of every earlier word. */
  lemma {:induction false} WordStartMonotone(words: seq<string>, a: nat, b: nat)
    requires a < b <= |words|
    ensures WordStart(words, a) + |words[a]| + 1 <= WordStart(words, b)
    decreases b - a
  {
    WordStartStep(words, a);
    if a + 1 < b {
      WordStartMonotone(words, a + 1, b);
    }
  }

  /** Character `j` of word `k` sits at `WordStart(words, k) + j` of the join. */
  lemma {:induction false} JoinCharAt(words: seq<string>, k: nat, j: nat)
    requires k < |words| && j < |words[k]|
    ensures WordStart(words, k) + j < |Join(words)|
    ensures Join(words)[WordStart(words, k) + j] == words[k][j]
    decreases |words|
  {
    if k == 0 {
      assert words[..0] == [];
      if |words| > 1 {
        assert Join(words) == words[0] + " " + Join(words[1..]);
      }
    } else {
      WordStartCons(words, k);
      JoinCharAt(words[1..], k - 1, j);
      assert Join(words) == words[0] + " " + Join(words[1..]);
    }
  }

  /** The join holds a space right after every word but the last. */
  lemma {:induction false} JoinSpaceAt(words: seq<string>, k: nat)
    requires k + 1 < |words|
    ensures WordStart(words, k) + |words[k]| < |Join(words)|
    ensures Join(words)[WordStart(words, k) + |words[k]|] == ' '
    decreases |words|
  {
    assert Join(words) == words[0] + " " + Join(words[1..]);
    if k == 0 {
      assert words[..0] == [];
    } else {
      WordStartCons(words, k);
      JoinSpaceAt(words[1..], k - 1);
    }
  }

  /** Every non-space character of the join is character `j` of some word `k`. */
  lemma {:induction false} JoinLocate(words: seq<string>, i: nat) returns (k: nat, j: nat)
    requires i < |Join(words)| && Join(words)[i] != ' '
    ensures k < |words| && j < |words[k]|
    ensures WordStart(words, k) + j == i
    decreases |words|
  {
    assert words[..0] == [];
    if |words| == 1 || i < |words[0]| {
      if |words| > 1 {
        assert Join(words) == words[0] + " " + Join(words[1..]);
      }
      k, j := 0, i;
    } else {
      assert Join(words) == words[0] + " " + Join(words[1..]);
      var k', j' := JoinLocate(words[1..], i - |words[0]| - 1);
      k, j := k' + 1, j';
      WordStartCons(words, k);
    }
  }

  /** Distinct (word, character) pairs land on distinct positions. */
  lemma GlobalIndexInjective(words: seq<string>, k1: nat, j1: nat, k2: nat, j2: nat)
    requires k1 < |words| && j1 < |words[k1]|
    requires k2 < |words| && j2 < |words[k2]|
    requires WordStart(words, k1) + j1 == WordStart(words, k2) + j2
    ensures k1 == k2 && j1 == j2
  {
    if k1 < k2 {
      WordStartMonotone(words, k1, k2);
    } else if k2 < k1 {
      WordStartMonotone(words, k2, k1);
    }
  }

  /** For the words of a text: character `j` of word `k` is the character of
      the text at that word's start offset plus `j`. */
  lemma TextCharAt(text: string, k: nat, j: nat)
    requires k < |Split(text)| && j < |Split(text)[k]|
    ensures WordStart(Split(text), k) + j < |text|
    ensures text[WordStart(Split(text), k) + j] == Split(text)[k][j]
  {
    JoinSplit(text);
    JoinCharAt(Split(text), k, j);
  }

  /** Every non-space character of a text belongs to some (word, character) pair;
      by `GlobalIndexInjective` no other pair reaches it. */
  lemma TextLocate(text: string, i: nat) returns (k: nat, j: nat)
    requires i < |text| && text[i] != ' '
    ensures k < |Split(text)| && j < |Split(text)[k]|
    ensures WordStart(Split(text), k) + j == i
  {
    JoinSplit(text);
    k, j := JoinLocate(Split(text), i);
  }
}
