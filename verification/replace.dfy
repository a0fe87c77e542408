/** Python's `bytes.replace(pat, rep)` and `bytes.count(pat)`: every
    non-overlapping occurrence of `pat`, scanning left to right. With an
    empty `pat`, `replace` inserts `rep` before every byte and at the end,
    and `count` is one more than the length. */
module Replace {
  import opened Bytes

  /** `s.replace(b'', rep)`: `rep`, then each byte of `s` followed by `rep`. */
  function Interleave(s: seq<Byte>, rep: seq<Byte>): seq<Byte>
    decreases |s|
  {
    if |s| == 0 then rep else rep + [s[0]] + Interleave(s[1..], rep)
  }

  /** The scan of `replace` for a non-empty `pat`, from index `i` of `s` on:
      an occurrence at `i` is rewritten and skipped, any other byte is kept. */
  function ReplaceFrom(s: seq<Byte>, pat: seq<Byte>, rep: seq<Byte>, i: nat): seq<Byte>
    requires |pat| > 0 && i <= |s|
    decreases |s| - i
  {
    if |s| - i < |pat| then s[i..]
    else if OccursAt(s, pat, i) then rep + ReplaceFrom(s, pat, rep, i + |pat|)
    else [s[i]] + ReplaceFrom(s, pat, rep, i + 1)
  }

  /** `s.replace(pat, rep)`. */
  function ReplaceAll(s: seq<Byte>, pat: seq<Byte>, rep: seq<Byte>): seq<Byte>
  {
    if |pat| == 0 then Interleave(s, rep) else ReplaceFrom(s, pat, rep, 0)
  }

  /** The number of occurrences the scan from `i` rewrites. */
  function CountFrom(s: seq<Byte>, pat: seq<Byte>, i: nat): nat
    requires |pat| > 0 && i <= |s|
    decreases |s| - i
  {
    if |s| - i < |pat| then 0
    else if OccursAt(s, pat, i) then 1 + CountFrom(s, pat, i + |pat|)
    else CountFrom(s, pat, i + 1)
  }

  /** `s.count(pat)`. */
  function Count(s: seq<Byte>, pat: seq<Byte>): nat
  {
    if |pat| == 0 then |s| + 1 else CountFrom(s, pat, 0)
  }

  /** Which positions of `ReplaceFrom(s, pat, rep, i)` belong to an inserted
      copy of `rep` (true) rather than to a byte kept from `s` (false). */
  ghost function InsertedFrom(s: seq<Byte>, pat: seq<Byte>, rep: seq<Byte>, i: nat): (m: seq<bool>)
    requires |pat| > 0 && i <= |s|
    ensures |m| == |ReplaceFrom(s, pat, rep, i)|
    decreases |s| - i
  {
    if |s| - i < |pat| then seq(|s| - i, _ => false)
    else if OccursAt(s, pat, i) then seq(|rep|, _ => true) + InsertedFrom(s, pat, rep, i + |pat|)
    else [false] + InsertedFrom(s, pat, rep, i + 1)
  }

  /** The inserted positions of `s.replace(pat, rep)`. */
  ghost function Inserted(s: seq<Byte>, pat: seq<Byte>, rep: seq<Byte>): (m: seq<bool>)
    requires |pat| > 0
    ensures |m| == |ReplaceAll(s, pat, rep)|
  {
    InsertedFrom(s, pat, rep, 0)
  }

  /** One step of the scan over an occurrence. */
  lemma UnfoldMatch(s: seq<Byte>, pat: seq<Byte>, rep: seq<Byte>, i: nat)
    requires |pat| > 0 && i <= |s| && OccursAt(s, pat, i)
    ensures ReplaceFrom(s, pat, rep, i) == rep + ReplaceFrom(s, pat, rep, i + |pat|)
    ensures InsertedFrom(s, pat, rep, i) == seq(|rep|, _ => true) + InsertedFrom(s, pat, rep, i + |pat|)
  {
  }

  /** One step of the scan over a kept byte. */
  lemma UnfoldKeep(s: seq<Byte>, pat: seq<Byte>, rep: seq<Byte>, i: nat)
    requires |pat| > 0 && i + |pat| <= |s| && !OccursAt(s, pat, i)
    ensures ReplaceFrom(s, pat, rep, i) == [s[i]] + ReplaceFrom(s, pat, rep, i + 1)
    ensures InsertedFrom(s, pat, rep, i) == [false] + InsertedFrom(s, pat, rep, i + 1)
  {
  }

  // ----- lengths and counts -----

  lemma {:induction false} InterleaveLength(s: seq<Byte>, rep: seq<Byte>)
    ensures |Interleave(s, rep)| == |s| + (|s| + 1) * |rep|
    decreases |s|
  {
    if |s| > 0 {
      InterleaveLength(s[1..], rep);
    }
  }

  lemma SuccessorProduct(c: nat, d: int)
    ensures (1 + c) * d == d + c * d
  {
  }

  /** The length bookkeeping of one rewritten occurrence: `total` bytes made
      of `inserted` new ones and a rest of `rest`, which covers `left - removed`
      input bytes with `c` further rewrites. */
  lemma MatchStepLength(total: int, inserted: int, rest: int, left: int, removed: int, c: nat)
    requires total == inserted + rest
    requires rest == left - removed + c * (inserted - removed)
    ensures total == left + (1 + c) * (inserted - removed)
  {
    SuccessorProduct(c, inserted - removed);
  }

  /** One rewritten occurrence adds `|rep| - |pat|` to the length. */
  lemma LengthAfterMatch(s: seq<Byte>, pat: seq<Byte>, rep: seq<Byte>, i: nat)
    requires |pat| > 0 && i + |pat| <= |s| && OccursAt(s, pat, i)
    requires |ReplaceFrom(s, pat, rep, i + |pat|)|
             == |s| - (i + |pat|) + CountFrom(s, pat, i + |pat|) * (|rep| - |pat|)
    ensures |ReplaceFrom(s, pat, rep, i)| == |s| - i + CountFrom(s, pat, i) * (|rep| - |pat|)
  {
    var c := CountFrom(s, pat, i + |pat|);
    UnfoldMatch(s, pat, rep, i);
    assert CountFrom(s, pat, i) == 1 + c;
    MatchStepLength(|ReplaceFrom(s, pat, rep, i)|, |rep|, |ReplaceFrom(s, pat, rep, i + |pat|)|,
                    |s| - i, |pat|, c);
  }

  /** A kept byte adds one to the length and nothing to the count. */
  lemma LengthAfterKeep(s: seq<Byte>, pat: seq<Byte>, rep: seq<Byte>, i: nat)
    requires |pat| > 0 && i + |pat| <= |s| && !OccursAt(s, pat, i)
    requires |ReplaceFrom(s, pat, rep, i + 1)| == |s| - (i + 1) + CountFrom(s, pat, i + 1) * (|rep| - |pat|)
    ensures |ReplaceFrom(s, pat, rep, i)| == |s| - i + CountFrom(s, pat, i) * (|rep| - |pat|)
  {
    UnfoldKeep(s, pat, rep, i);
    assert CountFrom(s, pat, i) == CountFrom(s, pat, i + 1);
  }

  lemma {:induction false} LengthFrom(s: seq<Byte>, pat: seq<Byte>, rep: seq<Byte>, i: nat)
    requires |pat| > 0 && i <= |s|
    ensures |ReplaceFrom(s, pat, rep, i)| == |s| - i + CountFrom(s, pat, i) * (|rep| - |pat|)
    decreases |s| - i
  {
    if |s| - i < |pat| {
    } else if OccursAt(s, pat, i) {
      LengthFrom(s, pat, rep, i + |pat|);
      LengthAfterMatch(s, pat, rep, i);
    } else {
      LengthFrom(s, pat, rep, i + 1);
      LengthAfterKeep(s, pat, rep, i);
    }
  }

  /** The length of `s.replace(pat, rep)` is the length of `s` changed by
      `|rep| - |pat|` for every occurrence `s.count(pat)` reports. */
  lemma ReplaceLength(s: seq<Byte>, pat: seq<Byte>, rep: seq<Byte>)
    ensures |ReplaceAll(s, pat, rep)| == |s| + Count(s, pat) * (|rep| - |pat|)
  {
    if |pat| == 0 {
      InterleaveLength(s, rep);
    } else {
      LengthFrom(s, pat, rep, 0);
    }
  }

  /** Replacing keys by keys of the same length never changes the length. */
  lemma ReplaceSameLength(s: seq<Byte>, pat: seq<Byte>, rep: seq<Byte>)
    ensures |pat| == |rep| ==> |ReplaceAll(s, pat, rep)| == |s|
  {
    ReplaceLength(s, pat, rep);
  }

  lemma {:induction false} CountFromPositive(s: seq<Byte>, pat: seq<Byte>, i: nat)
    requires |pat| > 0 && i <= |s|
    ensures CountFrom(s, pat, i) > 0 <==> exists j :: i <= j && OccursAt(s, pat, j)
    decreases |s| - i
  {
    if |s| - i < |pat| {
    } else if OccursAt(s, pat, i) {
    } else {
      CountFromPositive(s, pat, i + 1);
      if exists j :: i <= j && OccursAt(s, pat, j) {
        var j :| i <= j && OccursAt(s, pat, j);
        assert i + 1 <= j;
      }
    }
  }

  /** `s.count(pat)` is positive exactly when `pat in s`. */
  lemma CountPositiveIffOccurs(s: seq<Byte>, pat: seq<Byte>)
    ensures Count(s, pat) > 0 <==> Occurs(s, pat)
  {
    if |pat| == 0 {
      assert OccursAt(s, pat, 0);
    } else {
      CountFromPositive(s, pat, 0);
      if exists j :: 0 <= j && OccursAt(s, pat, j) {
        var j :| 0 <= j && OccursAt(s, pat, j);
        assert j <= |s| - |pat|;
      }
    }
  }

  // ----- what the scan does -----

  lemma {:induction false} ReplaceFromAbsent(s: seq<Byte>, pat: seq<Byte>, rep: seq<Byte>, i: nat)
    requires |pat| > 0 && i <= |s|
    requires forall j :: i <= j ==> !OccursAt(s, pat, j)
    ensures ReplaceFrom(s, pat, rep, i) == s[i..]
    decreases |s| - i
  {
    if |s| - i >= |pat| {
      ReplaceFromAbsent(s, pat, rep, i + 1);
      assert s[i..] == [s[i]] + s[i + 1..];
    }
  }

  /** With no occurrence of a non-empty `pat`, `replace` returns its input. */
  lemma ReplaceAbsent(s: seq<Byte>, pat: seq<Byte>, rep: seq<Byte>)
    requires |pat| > 0
    requires !Occurs(s, pat)
    ensures ReplaceAll(s, pat, rep) == s
  {
    forall j | 0 <= j ensures !OccursAt(s, pat, j) {
      assert !(0 <= j <= |s| - |pat| && OccursAt(s, pat, j));
    }
    ReplaceFromAbsent(s, pat, rep, 0);
  }

  lemma {:induction false} ReplaceBySelfFrom(s: seq<Byte>, pat: seq<Byte>, i: nat)
    requires |pat| > 0 && i <= |s|
    ensures ReplaceFrom(s, pat, pat, i) == s[i..]
    decreases |s| - i
  {
    if |s| - i < |pat| {
    } else if OccursAt(s, pat, i) {
      ReplaceBySelfFrom(s, pat, i + |pat|);
      assert s[i..] == s[i..i + |pat|] + s[i + |pat|..];
    } else {
      ReplaceBySelfFrom(s, pat, i + 1);
      assert s[i..] == [s[i]] + s[i + 1..];
    }
  }

  /** Inserting nothing between the bytes leaves them as they are. */
  lemma {:induction false} InterleaveNothing(s: seq<Byte>)
    ensures Interleave(s, []) == s
    decreases |s|
  {
    if |s| > 0 {
      InterleaveNothing(s[1..]);
      assert s == [s[0]] + s[1..];
    }
  }

  /** Replacing a key by itself changes nothing; for the empty key this is
      inserting nothing everywhere. */
  lemma ReplaceBySelf(s: seq<Byte>, pat: seq<Byte>)
    ensures ReplaceAll(s, pat, pat) == s
  {
    if |pat| == 0 {
      InterleaveNothing(s);
    } else {
      ReplaceBySelfFrom(s, pat, 0);
    }
  }

  /** Keeping one byte in front of a kept stretch extends the stretch. */
  lemma KeptByteJoins(s: seq<Byte>, i: nat, p: nat, rep: seq<Byte>, rest: seq<Byte>)
    requires i < p <= |s|
    ensures [s[i]] + (s[i + 1..p] + rep + rest) == s[i..p] + rep + rest
  {
    assert s[i..p] == [s[i]] + s[i + 1..p];
  }

  /** A kept byte in front of a scan that reaches the occurrence at `p`
      gives a scan from one position earlier that reaches it too. */
  lemma SkipOneKept(s: seq<Byte>, pat: seq<Byte>, rep: seq<Byte>, i: nat, p: nat)
    requires |pat| > 0 && i < p && OccursAt(s, pat, p) && !OccursAt(s, pat, i)
    requires ReplaceFrom(s, pat, rep, i + 1) == s[i + 1..p] + rep + ReplaceFrom(s, pat, rep, p + |pat|)
    ensures ReplaceFrom(s, pat, rep, i) == s[i..p] + rep + ReplaceFrom(s, pat, rep, p + |pat|)
  {
    UnfoldKeep(s, pat, rep, i);
    KeptByteJoins(s, i, p, rep, ReplaceFrom(s, pat, rep, p + |pat|));
  }

  /** The scan from `i` keeps every byte before the next occurrence `p`,
      rewrites that occurrence, and resumes right after it. */
  lemma {:induction false} ReplaceFromSkips(s: seq<Byte>, pat: seq<Byte>, rep: seq<Byte>, i: nat, p: nat)
    requires |pat| > 0 && i <= p
    requires OccursAt(s, pat, p)
    requires forall j :: i <= j < p ==> !OccursAt(s, pat, j)
    ensures ReplaceFrom(s, pat, rep, i) == s[i..p] + rep + ReplaceFrom(s, pat, rep, p + |pat|)
    decreases p - i
  {
    if i == p {
      UnfoldMatch(s, pat, rep, i);
      assert s[i..p] == [];
    } else {
      ReplaceFromSkips(s, pat, rep, i + 1, p);
      SkipOneKept(s, pat, rep, i, p);
    }
  }

  /** The scan rewrites the leftmost occurrence first: everything before it
      is kept, the occurrence `[p, q)` becomes `rep`, and the scan resumes
      at its end `q`. */
  lemma ReplaceAtFirst(s: seq<Byte>, pat: seq<Byte>, rep: seq<Byte>, p: nat, q: nat)
    requires |pat| > 0
    requires IsFirstAt(s, pat, p) && q == p + |pat|
    ensures ReplaceAll(s, pat, rep) == s[..p] + rep + ReplaceFrom(s, pat, rep, q)
  {
    ReplaceFromSkips(s, pat, rep, 0, p);
    assert s[0..p] == s[..p];
  }

  /** When a non-empty `pat` occurs only at `p`, `replace` is a splice of
      `rep` over that one occurrence. */
  lemma ReplaceUniqueIsSplice(s: seq<Byte>, pat: seq<Byte>, rep: seq<Byte>, p: nat)
    requires |pat| > 0
    requires OccursAt(s, pat, p)
    requires forall j :: OccursAt(s, pat, j) ==> j == p
    ensures ReplaceAll(s, pat, rep) == s[..p] + rep + s[p + |pat|..]
  {
    ReplaceFromSkips(s, pat, rep, 0, p);
    ReplaceFromAbsent(s, pat, rep, p + |pat|);
    assert s[0..p] == s[..p];
  }

  lemma NonZeroProduct(c: nat, d: int)
    requires c > 0 && d != 0
    ensures c * d != 0
  {
  }

  /** Equal-length case: the leftmost occurrence now reads `rep`. */
  lemma ReplaceChangesSameLength(s: seq<Byte>, pat: seq<Byte>, rep: seq<Byte>)
    requires |pat| > 0 && pat != rep && |pat| == |rep|
    requires Occurs(s, pat)
    ensures ReplaceAll(s, pat, rep) != s
  {
    var p := Find(s, pat).value;
    ReplaceAtFirst(s, pat, rep, p, p + |pat|);
    MiddleOf(s[..p], rep, ReplaceFrom(s, pat, rep, p + |pat|));
  }

  lemma MiddleOf(a: seq<Byte>, b: seq<Byte>, c: seq<Byte>)
    ensures (a + b + c)[|a|..|a| + |b|] == b
  {
  }

  /** When a non-empty `pat` occurs and `rep` differs from it, the result
      differs from the input. */
  lemma ReplaceChanges(s: seq<Byte>, pat: seq<Byte>, rep: seq<Byte>)
    requires |pat| > 0 && pat != rep
    requires Occurs(s, pat)
    ensures ReplaceAll(s, pat, rep) != s
  {
    if |pat| == |rep| {
      ReplaceChangesSameLength(s, pat, rep);
    } else {
      CountPositiveIffOccurs(s, pat);
      ReplaceLength(s, pat, rep);
      NonZeroProduct(Count(s, pat), |rep| - |pat|);
    }
  }

  /** `s.replace(pat, rep) == s` exactly when `pat` does not occur in `s` or
      `rep` is `pat` itself (for a non-empty `pat`). */
  lemma ReplaceUnchangedIff(s: seq<Byte>, pat: seq<Byte>, rep: seq<Byte>)
    requires |pat| > 0
    ensures ReplaceAll(s, pat, rep) == s <==> !Occurs(s, pat) || pat == rep
  {
    if !Occurs(s, pat) {
      ReplaceAbsent(s, pat, rep);
    } else if pat == rep {
      ReplaceBySelf(s, pat);
    } else {
      ReplaceChanges(s, pat, rep);
    }
  }

  // ----- occurrences left behind -----

  /** Some position of the window `[t, t + n)` is marked in `m`. */
  ghost predicate Touches(m: seq<bool>, t: int, n: nat)
  {
    exists j :: t <= j < t + n && 0 <= j < |m| && m[j]
  }

  /** An occurrence at the scan position is rewritten, so the result starts
      inside an inserted copy of a non-empty `rep`. */
  lemma InsertedStartsMarked(s: seq<Byte>, pat: seq<Byte>, rep: seq<Byte>, i: nat)
    requires |pat| > 0 && |rep| > 0 && i <= |s|
    requires OccursAt(s, pat, i)
    ensures InsertedFrom(s, pat, rep, i)[0]
  {
    assert InsertedFrom(s, pat, rep, i) == seq(|rep|, _ => true) + InsertedFrom(s, pat, rep, i + |pat|);
  }

  /** When the first `k` bytes of the scan from `i` contain no inserted
      byte, they are the input bytes `s[i..i + k]`, in order. */
  lemma {:induction false} UnmarkedPrefixIsKept(s: seq<Byte>, pat: seq<Byte>, rep: seq<Byte>, i: nat, k: nat)
    requires |pat| > 0 && |rep| > 0 && i <= |s|
    requires k <= |ReplaceFrom(s, pat, rep, i)|
    requires forall j :: 0 <= j < k ==> !InsertedFrom(s, pat, rep, i)[j]
    ensures i + k <= |s| && ReplaceFrom(s, pat, rep, i)[..k] == s[i..i + k]
    decreases |s| - i
  {
    if k == 0 {
    } else if |s| - i < |pat| {
    } else if OccursAt(s, pat, i) {
      InsertedStartsMarked(s, pat, rep, i);
      assert false;
    } else {
      var m, mt := InsertedFrom(s, pat, rep, i), InsertedFrom(s, pat, rep, i + 1);
      assert m == [false] + mt;
      var r, rt := ReplaceFrom(s, pat, rep, i), ReplaceFrom(s, pat, rep, i + 1);
      assert r == [s[i]] + rt;
      forall j | 0 <= j < k - 1 ensures !mt[j] {
        assert m[j + 1] == mt[j];
      }
      UnmarkedPrefixIsKept(s, pat, rep, i + 1, k - 1);
      assert r[..k] == [s[i]] + rt[..k - 1];
      assert s[i..i + k] == [s[i]] + s[i + 1..i + k];
    }
  }

  /** An occurrence past a prefix of the result is an occurrence in the
      rest of the result. */
  lemma OccursPastHead(r: seq<Byte>, head: seq<Byte>, rt: seq<Byte>, pat: seq<Byte>, t: int)
    requires r == head + rt && |head| <= t
    requires OccursAt(r, pat, t)
    ensures OccursAt(rt, pat, t - |head|)
  {
    OccursInSuffix(r, pat, |head|, t - |head|);
    assert r[|head|..] == rt;
  }

  /** A mark in the rest of the marks is a mark in the whole. */
  lemma TouchesPastHead(m: seq<bool>, head: seq<bool>, mt: seq<bool>, t: int, n: nat)
    requires m == head + mt
    requires Touches(mt, t - |head|, n)
    ensures Touches(m, t, n)
  {
    var j :| t - |head| <= j < t - |head| + n && 0 <= j < |mt| && mt[j];
    assert m[j + |head|];
  }

  /** Induction step when an occurrence sits at the scan position: the result
      starts with `rep`, which is all marked. */
  lemma ResidualAfterMatch(s: seq<Byte>, pat: seq<Byte>, rep: seq<Byte>, i: nat, t: int)
    requires |pat| > 0 && |rep| > 0 && i <= |s|
    requires OccursAt(s, pat, i)
    requires OccursAt(ReplaceFrom(s, pat, rep, i), pat, t)
    requires OccursAt(ReplaceFrom(s, pat, rep, i + |pat|), pat, t - |rep|) ==>
             Touches(InsertedFrom(s, pat, rep, i + |pat|), t - |rep|, |pat|)
    ensures Touches(InsertedFrom(s, pat, rep, i), t, |pat|)
  {
    UnfoldMatch(s, pat, rep, i);
    var m := InsertedFrom(s, pat, rep, i);
    if t < |rep| {
      assert m[t];
    } else {
      OccursPastHead(ReplaceFrom(s, pat, rep, i), rep, ReplaceFrom(s, pat, rep, i + |pat|), pat, t);
      TouchesPastHead(m, seq(|rep|, _ => true), InsertedFrom(s, pat, rep, i + |pat|), t, |pat|);
    }
  }

  /** A window at the very start of the result, where the byte at the scan
      position was kept, cannot be wholly unmarked: the kept bytes would
      spell an occurrence the scan did not rewrite. */
  lemma ResidualAtKeptByte(s: seq<Byte>, pat: seq<Byte>, rep: seq<Byte>, i: nat)
    requires |pat| > 0 && |rep| > 0 && i + |pat| <= |s|
    requires !OccursAt(s, pat, i)
    requires OccursAt(ReplaceFrom(s, pat, rep, i), pat, 0)
    ensures Touches(InsertedFrom(s, pat, rep, i), 0, |pat|)
  {
    var m := InsertedFrom(s, pat, rep, i);
    if !Touches(m, 0, |pat|) {
      UnmarkedPrefixIsKept(s, pat, rep, i, |pat|);
      assert false;
    }
  }

  /** Induction step when the byte at the scan position is kept. */
  lemma ResidualAfterKeptByte(s: seq<Byte>, pat: seq<Byte>, rep: seq<Byte>, i: nat, t: int)
    requires |pat| > 0 && |rep| > 0 && i + |pat| <= |s|
    requires !OccursAt(s, pat, i)
    requires OccursAt(ReplaceFrom(s, pat, rep, i), pat, t)
    requires OccursAt(ReplaceFrom(s, pat, rep, i + 1), pat, t - 1) ==>
             Touches(InsertedFrom(s, pat, rep, i + 1), t - 1, |pat|)
    ensures Touches(InsertedFrom(s, pat, rep, i), t, |pat|)
  {
    if t == 0 {
      ResidualAtKeptByte(s, pat, rep, i);
    } else {
      UnfoldKeep(s, pat, rep, i);
      OccursPastHead(ReplaceFrom(s, pat, rep, i), [s[i]], ReplaceFrom(s, pat, rep, i + 1), pat, t);
      TouchesPastHead(InsertedFrom(s, pat, rep, i), [false], InsertedFrom(s, pat, rep, i + 1), t, |pat|);
    }
  }

  lemma {:induction false} ResidualFrom(s: seq<Byte>, pat: seq<Byte>, rep: seq<Byte>, i: nat, t: int)
    requires |pat| > 0 && |rep| > 0 && i <= |s|
    requires OccursAt(ReplaceFrom(s, pat, rep, i), pat, t)
    ensures Touches(InsertedFrom(s, pat, rep, i), t, |pat|)
    decreases |s| - i
  {
    if |s| - i < |pat| {
      assert false;
    } else if OccursAt(s, pat, i) {
      if OccursAt(ReplaceFrom(s, pat, rep, i + |pat|), pat, t - |rep|) {
        ResidualFrom(s, pat, rep, i + |pat|, t - |rep|);
      }
      ResidualAfterMatch(s, pat, rep, i, t);
    } else {
      if OccursAt(ReplaceFrom(s, pat, rep, i + 1), pat, t - 1) {
        ResidualFrom(s, pat, rep, i + 1, t - 1);
      }
      ResidualAfterKeptByte(s, pat, rep, i, t);
    }
  }

  /** Every occurrence of a non-empty `pat` left in `s.replace(pat, rep)`
      overlaps an inserted copy of a non-empty `rep`: the rewrite leaves no
      occurrence of `pat` that `rep` did not reintroduce. */
  lemma ResidualOccurrenceTouchesInsertion(s: seq<Byte>, pat: seq<Byte>, rep: seq<Byte>, t: int)
    requires |pat| > 0 && |rep| > 0
    requires OccursAt(ReplaceAll(s, pat, rep), pat, t)
    ensures exists j :: t <= j < t + |pat| && Inserted(s, pat, rep)[j]
  {
    assert ReplaceAll(s, pat, rep) == ReplaceFrom(s, pat, rep, 0);
    ResidualFrom(s, pat, rep, 0, t);
    assert Inserted(s, pat, rep) == InsertedFrom(s, pat, rep, 0);
  }

  /** Deleting a key can create a new occurrence of it: "aabb" with "ab"
      removed becomes "ab". The previous lemma needs a non-empty `rep`. */
  lemma DeletionCanReintroduce()
    ensures ReplaceAll([0x61, 0x61, 0x62, 0x62], [0x61, 0x62], []) == [0x61, 0x62]
  {
    var s: seq<Byte>, ab: seq<Byte> := [0x61, 0x61, 0x62, 0x62], [0x61, 0x62];
    assert !OccursAt(s, ab, 0) by { assert s[0..2][1] != ab[1]; }
    assert OccursAt(s, ab, 1) by { assert s[1..3] == ab; }
    assert !OccursAt(s, ab, 3);
    assert ReplaceFrom(s, ab, [], 3) == [0x62];
  }

  /** Repeating a substitution need not be a no-op even when `rep` does not
      contain `pat`: with `pat` = "ab" and `rep` = "ba", "aab" becomes "aba",
      which becomes "baa". */
  lemma ReplaceNotIdempotent()
    ensures !Occurs([0x62, 0x61], [0x61, 0x62])
    ensures ReplaceAll([0x61, 0x61, 0x62], [0x61, 0x62], [0x62, 0x61]) == [0x61, 0x62, 0x61]
    ensures ReplaceAll([0x61, 0x62, 0x61], [0x61, 0x62], [0x62, 0x61]) == [0x62, 0x61, 0x61]
  {
    var ab: seq<Byte>, ba: seq<Byte> := [0x61, 0x62], [0x62, 0x61];
    assert ba[0..2] == ba && ba[0] != ab[0];
    assert !OccursAt(ba, ab, 0);
    var s: seq<Byte> := [0x61, 0x61, 0x62];
    assert !OccursAt(s, ab, 0) by { assert s[0..2][1] != ab[1]; }
    assert OccursAt(s, ab, 1) by { assert s[1..3] == ab; }
    var t: seq<Byte> := [0x61, 0x62, 0x61];
    assert OccursAt(t, ab, 0) by { assert t[0..2] == ab; }
    assert ReplaceFrom(t, ab, ba, 2) == [0x61];
  }
}
