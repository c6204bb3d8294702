/** `explode`: split the cleaned text of a tweet on spaces into a set of
    lower-cased, non-empty tokens. */
module Tokenize {

  /** `::tolower` in the C locale. */
  function LowerChar(c: char): char {
    if 'A' <= c <= 'Z' then (c as int + 32) as char else c
  }

  function Lower(s: string): (r: string)
    ensures |r| == |s|
  {
    seq(|s|, i requires 0 <= i < |s| => LowerChar(s[i]))
  }

  predicate IsLower(s: string) {
    forall i :: 0 <= i < |s| ==> !('A' <= s[i] <= 'Z')
  }

  /** Position of the first space, or |s|. */
  function SpaceIndex(s: string): (k: nat)
    ensures k <= |s|
    ensures k < |s| ==> s[k] == ' '
  {
    if s == [] || s[0] == ' ' then 0 else 1 + SpaceIndex(s[1..])
  }

  lemma {:induction false} SpaceFree(s: string)
    ensures forall j :: 0 <= j < SpaceIndex(s) ==> s[j] != ' '
  {
    if s != [] && s[0] != ' ' {
      SpaceFree(s[1..]);
      forall j | 1 <= j < SpaceIndex(s) ensures s[j] != ' ' {
        assert s[j] == s[1..][j - 1];
      }
    }
  }

  /** The word set of a text: each piece `getline(iss, token, ' ')` reads,
      lower-cased, empty pieces dropped. */
  function Words(s: string): set<string>
    decreases |s|
  {
    if s == [] then {}
    else
      var k := SpaceIndex(s);
      (if k == 0 then {} else {Lower(s[..k])}) +
      (if k == |s| then {} else Words(s[k + 1..]))
  }

  /** Every word is non-empty, holds no space and is lower case. */
  lemma {:induction false} WordsAreTokens(s: string)
    ensures forall w :: w in Words(s) ==> w != [] && ' ' !in w && IsLower(w)
    decreases |s|
  {
    if s != [] {
      var k := SpaceIndex(s);
      if k < |s| {
        WordsAreTokens(s[k + 1..]);
      }
      if k > 0 {
        SpaceFree(s);
        var w := Lower(s[..k]);
        forall i | 0 <= i < |w| ensures w[i] != ' ' && !('A' <= w[i] <= 'Z') {
          assert s[..k][i] == s[i];
        }
      }
    }
  }

  /** Every maximal space-free piece of the text contributes its lower-cased form. */
  lemma PieceIsWord(s: string, i: nat, j: nat)
    requires i < j <= |s|
    requires i == 0 || s[i - 1] == ' '
    requires j == |s| || s[j] == ' '
    requires forall k :: i <= k < j ==> s[k] != ' '
    ensures Lower(s[i..j]) in Words(s)
  {
    SuffixWords(s, i);
    WordsStep(s, i, j);
  }

  /** The words of the text after a space are words of the whole text. */
  lemma {:induction false} SuffixWords(s: string, p: nat)
    requires p <= |s| && (p == 0 || s[p - 1] == ' ')
    ensures Words(s[p..]) <= Words(s)
    decreases |s|
  {
    if p == 0 {
      assert s[p..] == s;
    } else {
      SpaceBefore(s, p - 1);
      var k := SpaceIndex(s);
      var t := s[k + 1..];
      assert t[p - k - 1..] == s[p..];
      assert p - k - 1 == 0 || t[p - k - 2] == s[p - 1];
      SuffixWords(t, p - k - 1);
      LaterWords(s);
    }
  }

  lemma SpaceBefore(s: string, i: nat)
    requires i < |s| && s[i] == ' '
    ensures SpaceIndex(s) <= i
  {
    SpaceFree(s);
  }

  lemma LaterWords(s: string)
    requires s != [] && SpaceIndex(s) < |s|
    ensures Words(s[SpaceIndex(s) + 1..]) <= Words(s)
  {
    SpaceFree(s);
    WordsStep(s, 0, SpaceIndex(s));
    assert s[0..] == s;
  }

  /** One piece of the text: the words of the text from `pos` are the word that
      ends at the next space (if it is not empty) and the words after that space. */
  lemma WordsStep(s: string, pos: nat, end: nat)
    requires pos < |s| && pos <= end <= |s|
    requires forall k :: pos <= k < end ==> s[k] != ' '
    requires end == |s| || s[end] == ' '
    ensures Words(s[pos..]) ==
      (if end == pos then {} else {Lower(s[pos..end])}) +
      (if end == |s| then {} else Words(s[end + 1..]))
  {
    var t := s[pos..];
    SpaceIndexAt(t, end - pos);
    assert t[..end - pos] == s[pos..end];
    if end < |s| {
      assert t[end - pos + 1..] == s[end + 1..];
    }
  }

  /** The loop of `explode` over an `istringstream`. */
  method Explode(s: string) returns (words: set<string>)
    ensures words == Words(s)
  {
    words := {};
    var pos := 0;
    while pos < |s|
      invariant 0 <= pos <= |s|
      invariant words + Words(s[pos..]) == Words(s)
    {
      var end := pos;
      while end < |s| && s[end] != ' '
        invariant pos <= end <= |s|
        invariant forall k :: pos <= k < end ==> s[k] != ' '
      {
        end := end + 1;
      }
      var token := Lower(s[pos..end]);
      ghost var before := words;
      assert token != " " by {
        if |token| == 1 { assert token[0] == LowerChar(s[pos]); }
      }
      if token != "" && token != " " {
        words := words + {token};
      }
      var next := if end < |s| then end + 1 else end;
      ExplodeStep(s, pos, end, next, before, words);
      pos := next;
    }
  }

  lemma ExplodeStep(s: string, pos: nat, end: nat, next: nat, before: set<string>, after: set<string>)
    requires pos < |s| && pos <= end <= |s|
    requires forall k :: pos <= k < end ==> s[k] != ' '
    requires end == |s| || s[end] == ' '
    requires next == if end < |s| then end + 1 else end
    requires after == if end == pos then before else before + {Lower(s[pos..end])}
    requires before + Words(s[pos..]) == Words(s)
    ensures after + Words(s[next..]) == Words(s)
  {
    WordsStep(s, pos, end);
    if end == |s| {
      assert s[next..] == [];
    }
  }

  lemma {:induction false} SpaceIndexAt(s: string, k: nat)
    requires k <= |s| && (k < |s| ==> s[k] == ' ')
    requires forall j :: 0 <= j < k ==> s[j] != ' '
    ensures SpaceIndex(s) == k
  {
    if s != [] && k > 0 {
      SpaceIndexAt(s[1..], k - 1);
    }
  }
}
