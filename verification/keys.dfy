/** The key table and the substitution loop shared by `patch_bzimage`
    (over the embedded archive) and `patch_squashfs` (over each file). */
module Keys {
  import opened Wrappers
  import opened Bytes
  import opened Replace

  /** One table entry: a vendor public key and the key that replaces it. */
  datatype KeyPair = KeyPair(oldKey: seq<Byte>, newKey: seq<Byte>)

  /** Every replacement key has the length of the key it replaces. */
  predicate SameLengthKeys(pairs: seq<KeyPair>) {
    forall k :: 0 <= k < |pairs| ==> |pairs[k].oldKey| == |pairs[k].newKey|
  }

  /** One turn of the loop: replace every occurrence of the old key, but
      only when it occurs. */
  function ApplyPair(buf: seq<Byte>, p: KeyPair): (r: seq<Byte>)
    ensures !Occurs(buf, p.oldKey) ==> r == buf
    ensures |p.oldKey| == |p.newKey| ==> |r| == |buf|
  {
    if Occurs(buf, p.oldKey) then
      ReplaceSameLength(buf, p.oldKey, p.newKey);
      ReplaceAll(buf, p.oldKey, p.newKey)
    else buf
  }

  /** The `in` test changes only what is reported, not the buffer:
      `replace` alone gives the same bytes. An empty old key always
      occurs, so for it the test never skips. */
  lemma GuardOnlyReports(buf: seq<Byte>, p: KeyPair)
    ensures ApplyPair(buf, p) == ReplaceAll(buf, p.oldKey, p.newKey)
  {
    if |p.oldKey| == 0 {
      assert OccursAt(buf, p.oldKey, 0);
    } else if !Occurs(buf, p.oldKey) {
      ReplaceAbsent(buf, p.oldKey, p.newKey);
    }
  }

  /** The outcome of the loop: the final buffer, and for each pair whether
      its old key occurred when its turn came (the pairs that are reported
      as patched). */
  datatype Substitution = Substitution(data: seq<Byte>, applied: seq<bool>)

  /** The loop over the key table, in table order. */
  function Substitute(buf: seq<Byte>, pairs: seq<KeyPair>): (r: Substitution)
    ensures |r.applied| == |pairs|
    ensures SameLengthKeys(pairs) ==> |r.data| == |buf|
    ensures true !in r.applied ==> r.data == buf
    ensures |pairs| > 0 ==> (r.applied[0] <==> Occurs(buf, pairs[0].oldKey))
    decreases |pairs|
  {
    if |pairs| == 0 then Substitution(buf, [])
    else
      var rest := Substitute(ApplyPair(buf, pairs[0]), pairs[1..]);
      assert SameLengthKeys(pairs) ==> SameLengthKeys(pairs[1..]);
      var hit := Occurs(buf, pairs[0].oldKey);
      assert true !in [hit] + rest.applied ==> !hit && true !in rest.applied;
      Substitution(rest.data, [hit] + rest.applied)
  }

  /** A table none of whose old keys occurs leaves the buffer
      as it is and reports nothing. */
  lemma {:induction false} SubstituteWithoutKeys(buf: seq<Byte>, pairs: seq<KeyPair>)
    requires forall k :: 0 <= k < |pairs| ==> !Occurs(buf, pairs[k].oldKey)
    ensures Substitute(buf, pairs).data == buf
    ensures true !in Substitute(buf, pairs).applied
    decreases |pairs|
  {
    if |pairs| > 0 {
      assert ApplyPair(buf, pairs[0]) == buf;
      SubstituteWithoutKeys(buf, pairs[1..]);
    }
  }

  /** A pair whose new key differs from its old key changes the buffer
      exactly when it is reported as patched. An empty old key is always
      reported, and inserting a non-empty new key always lengthens the
      buffer. */
  lemma AppliedPairChanges(buf: seq<Byte>, p: KeyPair)
    requires p.oldKey != p.newKey
    ensures ApplyPair(buf, p) != buf <==> Occurs(buf, p.oldKey)
  {
    if |p.oldKey| == 0 {
      assert OccursAt(buf, p.oldKey, 0);
      InterleaveLength(buf, p.newKey);
      assert (|buf| + 1) * |p.newKey| > 0;
    } else if Occurs(buf, p.oldKey) {
      ReplaceUnchangedIff(buf, p.oldKey, p.newKey);
    }
  }

  /** One unfolding of `Substitute`: the first pair, then the rest of the
      table on the resulting buffer. */
  lemma SubstituteFirst(buf: seq<Byte>, pairs: seq<KeyPair>)
    requires |pairs| > 0
    ensures var tail := Substitute(ApplyPair(buf, pairs[0]), pairs[1..]);
            Substitute(buf, pairs) == Substitution(tail.data, [Occurs(buf, pairs[0].oldKey)] + tail.applied)
  {
  }

  /** What each report means: pair `k` is reported exactly when its old
      key occurs in the buffer left by the pairs before it. */
  lemma {:induction false} SubstituteReports(buf: seq<Byte>, pairs: seq<KeyPair>)
    ensures forall k :: 0 <= k < |pairs| ==>
              (Substitute(buf, pairs).applied[k] <==> Occurs(Substitute(buf, pairs[..k]).data, pairs[k].oldKey))
    decreases |pairs|
  {
    if |pairs| > 0 {
      var next := ApplyPair(buf, pairs[0]);
      SubstituteReports(next, pairs[1..]);
      SubstituteFirst(buf, pairs);
      forall k | 0 <= k < |pairs|
        ensures Substitute(buf, pairs).applied[k] <==> Occurs(Substitute(buf, pairs[..k]).data, pairs[k].oldKey)
      {
        if k == 0 {
          assert pairs[..0] == [];
        } else {
          PrefixAfterFirst(buf, pairs, k);
        }
      }
    }
  }

  /** The pairs before `k` act on the buffer as the first pair followed by
      the pairs from 1 to `k`. */
  lemma PrefixAfterFirst(buf: seq<Byte>, pairs: seq<KeyPair>, k: nat)
    requires 0 < k < |pairs|
    ensures Substitute(buf, pairs[..k]).data == Substitute(ApplyPair(buf, pairs[0]), pairs[1..][..k - 1]).data
    ensures pairs[1..][k - 1] == pairs[k]
  {
    SubstituteFirst(buf, pairs[..k]);
    assert pairs[..k][0] == pairs[0];
    assert pairs[..k][1..] == pairs[1..][..k - 1];
  }

  /** A first pair whose old key is absent is not reported and leaves the
      rest of the table to work on the same buffer. */
  lemma SkipAbsentFirst(buf: seq<Byte>, pairs: seq<KeyPair>)
    requires |pairs| > 0 && !Occurs(buf, pairs[0].oldKey)
    ensures Substitute(buf, pairs).applied == [false] + Substitute(buf, pairs[1..]).applied
  {
    SubstituteFirst(buf, pairs);
    assert ApplyPair(buf, pairs[0]) == buf;
  }

  /** When the first old key is absent, some old key occurs exactly when one
      of the others does. */
  lemma SomeKeyInRest(buf: seq<Byte>, pairs: seq<KeyPair>)
    requires |pairs| > 0 && !Occurs(buf, pairs[0].oldKey)
    ensures (exists k :: 0 <= k < |pairs| && Occurs(buf, pairs[k].oldKey))
            <==> (exists k :: 0 <= k < |pairs| - 1 && Occurs(buf, pairs[1..][k].oldKey))
  {
    if exists k :: 0 <= k < |pairs| && Occurs(buf, pairs[k].oldKey) {
      var k :| 0 <= k < |pairs| && Occurs(buf, pairs[k].oldKey);
      assert pairs[1..][k - 1] == pairs[k];
    }
    if exists k :: 0 <= k < |pairs| - 1 && Occurs(buf, pairs[1..][k].oldKey) {
      var k :| 0 <= k < |pairs| - 1 && Occurs(buf, pairs[1..][k].oldKey);
      assert pairs[k + 1] == pairs[1..][k];
    }
  }

  /** Some pair is reported exactly when some old key occurs in the
      original buffer: the first such key is still there when its turn
      comes, because every earlier turn left the buffer alone. */
  lemma {:induction false} ReportedIffSomeKeyOccurs(buf: seq<Byte>, pairs: seq<KeyPair>)
    ensures true in Substitute(buf, pairs).applied
            <==> exists k :: 0 <= k < |pairs| && Occurs(buf, pairs[k].oldKey)
    decreases |pairs|
  {
    if |pairs| > 0 {
      if Occurs(buf, pairs[0].oldKey) {
        assert Substitute(buf, pairs).applied[0];
      } else {
        ReportedIffSomeKeyOccurs(buf, pairs[1..]);
        SkipAbsentFirst(buf, pairs);
        SomeKeyInRest(buf, pairs);
        var rest := Substitute(buf, pairs[1..]).applied;
        assert true in [false] + rest <==> true in rest;
      }
    }
  }

  /** The loop as written: walk the table, replacing each old key that
      occurs in the current buffer. */
  method SubstituteKeys(buf: seq<Byte>, pairs: seq<KeyPair>) returns (out: seq<Byte>, applied: seq<bool>)
    ensures Substitution(out, applied) == Substitute(buf, pairs)
    ensures SameLengthKeys(pairs) ==> |out| == |buf|
  {
    out, applied := buf, [];
    var i := 0;
    while i < |pairs|
      invariant 0 <= i <= |pairs|
      invariant |applied| == i
      invariant Substitute(out, pairs[i..]).data == Substitute(buf, pairs).data
      invariant applied + Substitute(out, pairs[i..]).applied == Substitute(buf, pairs).applied
    {
      var p := pairs[i];
      var hit := Occurs(out, p.oldKey);
      SubstituteFirst(out, pairs[i..]);
      assert pairs[i..][0] == p && pairs[i..][1..] == pairs[i + 1..];
      if hit {
        out := ReplaceAll(out, p.oldKey, p.newKey);
      }
      assert applied + [hit] + Substitute(out, pairs[i + 1..]).applied
          == applied + ([hit] + Substitute(out, pairs[i + 1..]).applied);
      applied := applied + [hit];
      i := i + 1;
    }
    assert pairs[i..] == [];
    assert applied + [] == applied;
  }

  /** `patch_squashfs` for one file: the bytes written back to the file, or
      None when no old key occurred and the file is left untouched. */
  function PatchFileContents(data: seq<Byte>, pairs: seq<KeyPair>): (written: Option<seq<Byte>>)
    ensures written.Some? <==> exists k :: 0 <= k < |pairs| && Occurs(data, pairs[k].oldKey)
    ensures written.Some? <==> true in Substitute(data, pairs).applied
    ensures written.Some? ==> written.value == Substitute(data, pairs).data
    ensures written.None? ==> Substitute(data, pairs).data == data
    ensures written.Some? && SameLengthKeys(pairs) ==> |written.value| == |data|
  {
    ReportedIffSomeKeyOccurs(data, pairs);
    var s := Substitute(data, pairs);
    if true in s.applied then Some(s.data) else None
  }
}
