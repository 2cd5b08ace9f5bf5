/**
 * The keyword filter of the text-message handler.
 *
 * The bot builds a regular expression from a fixed keyword by joining the
 * keyword's characters with `.*`, and tests incoming text with a `re.search`
 * of that expression. Python's `.` does not match a newline unless DOTALL is
 * given, so the expression finds the keyword's characters in order with any
 * run of non-newline characters between two consecutive ones.
 *
 * The model does not interpret regular expressions in general: for a keyword
 * without metacharacters, `Matches` states the meaning of the joined pattern
 * through index witnesses, and `Search` is a backtracking decision procedure
 * for that one pattern shape, proved to agree with it.
 */
module KeywordFilter {

  /** The keyword that triggers the warning reply. */
  const Keyword: string := "哈囉"

  /** The separator placed between two keyword characters. */
  const AllowedChars: string := ".*"

  /** Characters with a special meaning in a Python regular expression. */
  const Metachars: string := ".^$*+?{}[]\\|()"

  /** A keyword whose characters all stand for themselves in a pattern. */
  predicate IsLiteral(k: string) {
    forall j :: 0 <= j < |k| ==> k[j] !in Metachars
  }

  /**
   * `AllowedChars.join(k)`: the keyword's characters with `.*` between each
   * two consecutive ones, and nothing before the first or after the last.
   */
  function Pattern(k: string): (p: string)
    ensures k == [] ==> p == []
    ensures k != [] ==> |p| == 3 * |k| - 2 && p[0] == k[0] && p[|p| - 1] == k[|k| - 1]
  {
    if |k| <= 1 then k else [k[0]] + AllowedChars + Pattern(k[1..])
  }

  /** Keyword character `j` sits at position `3 * j`, followed by `.*` unless it is the last. */
  lemma {:induction false} PatternAt(k: string, j: nat)
    requires j < |k|
    ensures 3 * j < |Pattern(k)| && Pattern(k)[3 * j] == k[j]
    ensures j < |k| - 1 ==> Pattern(k)[3 * j + 1] == '.' && Pattern(k)[3 * j + 2] == '*'
  {
    if j > 0 {
      PatternAt(k[1..], j - 1);
      assert Pattern(k) == [k[0]] + AllowedChars + Pattern(k[1..]);
    }
  }

  lemma KeywordIsLiteral()
    ensures IsLiteral(Keyword) && '\n' !in Keyword
    ensures Pattern(Keyword) == "哈.*囉"
  {
  }

  /** No newline at any position `p` of `t` with `lo <= p < hi`. */
  ghost predicate LineFree(t: string, lo: int, hi: int) {
    forall p :: lo <= p < hi && 0 <= p < |t| ==> t[p] != '\n'
  }

  /**
   * `idx` places keyword characters `j..` in `t`: each at a position holding
   * that character, each after the previous one, and only non-newline
   * characters in the gap between two consecutive positions.
   */
  ghost predicate ChainFrom(k: string, t: string, idx: seq<int>, j: nat) {
    && |idx| == |k|
    && (forall m :: j <= m < |k| ==> 0 <= idx[m] < |t| && t[idx[m]] == k[m])
    && (forall m :: j <= m < |k| - 1 ==> idx[m] < idx[m + 1] && LineFree(t, idx[m] + 1, idx[m + 1]))
  }

  /** What `re.search(AllowedChars.join(k), t)` finds, for a literal keyword `k`. */
  ghost predicate Matches(k: string, t: string) {
    exists idx :: ChainFrom(k, t, idx, 0)
  }

  /**
   * The rest of the pattern, from keyword character `j` on, matched starting at
   * position `pos`: the leading `.*` may skip non-newline characters only.
   */
  function TailFrom(k: string, t: string, j: nat, pos: nat): bool
    requires j <= |k|
    decreases |t| - pos
  {
    if j == |k| then true
    else if pos >= |t| then false
    else (t[pos] == k[j] && TailFrom(k, t, j + 1, pos + 1)) || (t[pos] != '\n' && TailFrom(k, t, j, pos + 1))
  }

  /** An unanchored search: try every start position from `pos` on. */
  function SearchFrom(k: string, t: string, pos: nat): bool
    decreases |t| - pos
  {
    if k == [] then true
    else if pos >= |t| then false
    else (t[pos] == k[0] && TailFrom(k, t, 1, pos + 1)) || SearchFrom(k, t, pos + 1)
  }

  lemma {:induction false} TailSound(k: string, t: string, j: nat, pos: nat)
    requires j <= |k| && TailFrom(k, t, j, pos)
    ensures exists idx :: ChainFrom(k, t, idx, j) && (j < |k| ==> pos <= idx[j] && LineFree(t, pos, idx[j]))
    decreases |t| - pos
  {
    if j == |k| {
      var idx := seq(|k|, _ => 0);
      assert ChainFrom(k, t, idx, j);
    } else if t[pos] == k[j] && TailFrom(k, t, j + 1, pos + 1) {
      TailSound(k, t, j + 1, pos + 1);
      var idx :| ChainFrom(k, t, idx, j + 1) && (j + 1 < |k| ==> pos + 1 <= idx[j + 1] && LineFree(t, pos + 1, idx[j + 1]));
      var idx' := idx[j := pos];
      assert ChainFrom(k, t, idx', j);
    } else {
      TailSound(k, t, j, pos + 1);
      var idx :| ChainFrom(k, t, idx, j) && pos + 1 <= idx[j] && LineFree(t, pos + 1, idx[j]);
      assert LineFree(t, pos, idx[j]);
    }
  }

  lemma {:induction false} TailComplete(k: string, t: string, idx: seq<int>, j: nat, pos: nat)
    requires j < |k| && ChainFrom(k, t, idx, j)
    requires pos <= idx[j] && LineFree(t, pos, idx[j])
    ensures TailFrom(k, t, j, pos)
    decreases |k| - j, idx[j] - pos
  {
    if pos == idx[j] {
      if j + 1 < |k| {
        TailComplete(k, t, idx, j + 1, pos + 1);
      }
    } else {
      TailComplete(k, t, idx, j, pos + 1);
    }
  }

  lemma {:induction false} SearchSound(k: string, t: string, pos: nat)
    requires SearchFrom(k, t, pos)
    ensures Matches(k, t)
    decreases |t| - pos
  {
    if k == [] {
      assert ChainFrom(k, t, [], 0);
    } else if t[pos] == k[0] && TailFrom(k, t, 1, pos + 1) {
      TailSound(k, t, 1, pos + 1);
      var idx :| ChainFrom(k, t, idx, 1) && (1 < |k| ==> pos + 1 <= idx[1] && LineFree(t, pos + 1, idx[1]));
      assert ChainFrom(k, t, idx[0 := pos], 0);
    } else {
      SearchSound(k, t, pos + 1);
    }
  }

  lemma {:induction false} SearchComplete(k: string, t: string, idx: seq<int>, pos: nat)
    requires k != [] && ChainFrom(k, t, idx, 0) && pos <= idx[0]
    ensures SearchFrom(k, t, pos)
    decreases idx[0] - pos
  {
    if pos == idx[0] {
      if 1 < |k| {
        TailComplete(k, t, idx, 1, pos + 1);
      }
    } else {
      SearchComplete(k, t, idx, pos + 1);
    }
  }

  /** The backtracking search decides the witness predicate, in both directions. */
  lemma SearchCorrect(k: string, t: string)
    ensures SearchFrom(k, t, 0) <==> Matches(k, t)
  {
    if SearchFrom(k, t, 0) {
      SearchSound(k, t, 0);
    }
    if Matches(k, t) && k != [] {
      var idx :| ChainFrom(k, t, idx, 0);
      SearchComplete(k, t, idx, 0);
    }
  }

  /** `re.search(AllowedChars.join(k), t)` succeeds exactly when `Matches(k, t)`. */
  function Search(k: string, t: string): (found: bool)
    ensures found <==> Matches(k, t)
  {
    SearchCorrect(k, t);
    SearchFrom(k, t, 0)
  }

  /** Positions for each character of `k` in `t`, strictly in order. */
  ghost predicate InOrder(k: string, t: string, idx: seq<int>) {
    && |idx| == |k|
    && (forall m :: 0 <= m < |k| ==> 0 <= idx[m] < |t| && t[idx[m]] == k[m])
    && (forall a, b :: 0 <= a < b < |k| ==> idx[a] < idx[b])
  }

  /** The characters of `k` occur in order in `t`, with anything between them. */
  ghost predicate IsSubsequence(k: string, t: string) {
    exists idx :: InOrder(k, t, idx)
  }

  /**
   * A chain is ordered, and no newline lies between its first position and
   * position `m` other than possibly at a keyword character.
   */
  lemma {:induction false} ChainPrefix(k: string, t: string, idx: seq<int>, m: nat)
    requires ChainFrom(k, t, idx, 0) && m < |k| && '\n' !in k
    ensures forall a :: 0 <= a < m ==> idx[a] < idx[m]
    ensures LineFree(t, idx[0] + 1, idx[m])
  {
    if m > 0 {
      ChainPrefix(k, t, idx, m - 1);
      assert t[idx[m - 1]] == k[m - 1] != '\n';
    }
  }

  /**
   * For a keyword without newlines, the pattern matches exactly when the
   * keyword's characters occur in order with no newline anywhere between the
   * first and the last of them.
   */
  lemma MatchesIffLineFreeSpan(k: string, t: string)
    requires k != [] && '\n' !in k
    ensures Matches(k, t) <==> exists idx :: InOrder(k, t, idx) && LineFree(t, idx[0] + 1, idx[|k| - 1])
  {
    if Matches(k, t) {
      var idx :| ChainFrom(k, t, idx, 0);
      forall b | 0 <= b < |k|
        ensures forall a :: 0 <= a < b ==> idx[a] < idx[b]
      {
        ChainPrefix(k, t, idx, b);
      }
      ChainPrefix(k, t, idx, |k| - 1);
      assert InOrder(k, t, idx);
    }
    if exists idx :: InOrder(k, t, idx) && LineFree(t, idx[0] + 1, idx[|k| - 1]) {
      var idx :| InOrder(k, t, idx) && LineFree(t, idx[0] + 1, idx[|k| - 1]);
      assert ChainFrom(k, t, idx, 0);
    }
  }

  /** Positions in a chain ascend between any two keyword characters, not only neighbours. */
  lemma {:induction false} ChainOrdered(k: string, t: string, idx: seq<int>, a: nat, b: nat)
    requires ChainFrom(k, t, idx, 0) && a < b < |k|
    ensures idx[a] < idx[b]
    decreases b - a
  {
    if a + 1 < b {
      ChainOrdered(k, t, idx, a + 1, b);
    }
  }

  /** Every match is an in-order occurrence of the keyword's characters. */
  lemma MatchIsSubsequence(k: string, t: string)
    requires Matches(k, t)
    ensures IsSubsequence(k, t)
  {
    var idx :| ChainFrom(k, t, idx, 0);
    forall a, b | 0 <= a < b < |k|
      ensures idx[a] < idx[b]
    {
      ChainOrdered(k, t, idx, a, b);
    }
    assert InOrder(k, t, idx);
  }

  /**
   * The converse fails: a newline between the keyword's characters keeps the
   * pattern from matching even though the characters occur in order.
   */
  lemma NewlineBlocksMatch()
    ensures IsSubsequence(Keyword, "哈\n囉")
    ensures !Matches(Keyword, "哈\n囉")
  {
    assert InOrder(Keyword, "哈\n囉", [0, 2]);
    assert !Search(Keyword, "哈\n囉");
  }

  /** The keyword matches a text that repeats its last character. */
  lemma RepeatedCharactersMatch()
    ensures Matches(Keyword, "哈囉囉囉")
    ensures Matches(Keyword, "哈 囉")
    ensures !Matches(Keyword, "囉哈")
  {
    assert Search(Keyword, "哈囉囉囉");
    assert Search(Keyword, "哈 囉");
    assert !Search(Keyword, "囉哈");
  }
}
