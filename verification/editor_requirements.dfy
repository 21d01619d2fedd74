/**
 * Removal of duplicate requirements when the dialog inspector is closed: two
 * requirements are duplicates when they have the same type and target.
 */
module EditorRequirements {
  import opened DialogGraph
  import opened Sequences

  datatype RequirementKey = RequirementKey(kind: nat, target: RequirementTarget)

  function Key(r: DialogRequirement): RequirementKey
  {
    RequirementKey(r.kind, r.target)
  }

  function Keys(s: seq<DialogRequirement>): set<RequirementKey>
  {
    set m | 0 <= m < |s| :: Key(s[m])
  }

  lemma KeysCons(x: DialogRequirement, s: seq<DialogRequirement>)
    ensures Keys([x] + s) == {Key(x)} + Keys(s)
  {
    var r := [x] + s;
    assert Key(r[0]) == Key(x);
    forall m | 0 <= m < |s| ensures Key(s[m]) in Keys(r) {
      assert r[m + 1] == s[m];
    }
    forall m | 0 <= m < |r| ensures Key(r[m]) in {Key(x)} + Keys(s) {
      if m > 0 {
        assert r[m] == s[m - 1];
      }
    }
  }

  lemma KeysSnoc(s: seq<DialogRequirement>, x: DialogRequirement)
    ensures Keys(s + [x]) == Keys(s) + {Key(x)}
  {
    var r := s + [x];
    assert Key(r[|s|]) == Key(x);
    forall m | 0 <= m < |s| ensures Key(s[m]) in Keys(r) {
      assert r[m] == s[m];
    }
    forall m | 0 <= m < |r| ensures Key(r[m]) in Keys(s) + {Key(x)} {
      if m < |s| {
        assert r[m] == s[m];
      }
    }
  }

  /** No two entries share a (type, target) key. */
  predicate DistinctKeys(s: seq<DialogRequirement>)
  {
    forall j, k :: 0 <= j < k < |s| ==> Key(s[j]) != Key(s[k])
  }

  /** Entry `i` is the first of `s` with its key. */
  predicate FirstOfKey(s: seq<DialogRequirement>, i: nat)
    requires i < |s|
  {
    forall j :: 0 <= j < i ==> Key(s[j]) != Key(s[i])
  }

  /**
   * The entries of `s` whose key is neither in `seen` nor on an earlier entry,
   * in order.
   */
  function KeepFirst(seen: set<RequirementKey>, s: seq<DialogRequirement>): seq<DialogRequirement>
    decreases |s|
  {
    if s == [] then []
    else if Key(s[0]) in seen then KeepFirst(seen, s[1..])
    else [s[0]] + KeepFirst(seen + {Key(s[0])}, s[1..])
  }

  /**
   * Keeps the first requirement of each (type, target) key and drops the
   * later ones, scanning the list once against the kept entries.  The result
   * is the reference list `KeepFirst({}, source)`, whose properties
   * the `KeepFirst` lemmas below state.
   */
  method RemoveDuplicateRequirements(source: seq<DialogRequirement>) returns (clean: seq<DialogRequirement>)
    ensures clean == KeepFirst({}, source)
  {
    clean := [];
    var i := 0;
    assert Keys([]) == {};
    assert source[0..] == source;
    while i < |source|
      invariant 0 <= i <= |source|
      invariant clean + KeepFirst(Keys(clean), source[i..]) == KeepFirst({}, source)
    {
      var found := false;
      var cl := 0;
      while cl < |clean|
        invariant 0 <= cl <= |clean|
        invariant forall m :: 0 <= m < cl ==> Key(clean[m]) != Key(source[i])
        invariant !found
      {
        if clean[cl].kind == source[i].kind && clean[cl].target == source[i].target {
          found := true;
          break;
        }
        cl := cl + 1;
      }
      assert found <==> Key(source[i]) in Keys(clean);
      assert source[i..] == [source[i]] + source[i + 1..];
      if !found {
        KeysSnoc(clean, source[i]);
        clean := clean + [source[i]];
      }
      i := i + 1;
    }
    assert source[i..] == [];
  }

  /** The kept entries have distinct keys, none of them in `seen`, and cover every other key of `s`. */
  lemma {:induction false} KeepFirstKeys(seen: set<RequirementKey>, s: seq<DialogRequirement>)
    ensures Keys(KeepFirst(seen, s)) == Keys(s) - seen
    decreases |s|
  {
    if s != [] {
      var rest := s[1..];
      assert s == [s[0]] + rest;
      KeysCons(s[0], rest);
      if Key(s[0]) in seen {
        KeepFirstKeys(seen, rest);
      } else {
        var seen' := seen + {Key(s[0])};
        KeepFirstKeys(seen', rest);
        KeysCons(s[0], KeepFirst(seen', rest));
      }
    }
  }

  lemma {:induction false} KeepFirstDistinct(seen: set<RequirementKey>, s: seq<DialogRequirement>)
    ensures DistinctKeys(KeepFirst(seen, s))
    decreases |s|
  {
    if s != [] {
      var rest := s[1..];
      if Key(s[0]) in seen {
        KeepFirstDistinct(seen, rest);
      } else {
        var seen' := seen + {Key(s[0])};
        var tail := KeepFirst(seen', rest);
        KeepFirstDistinct(seen', rest);
        KeepFirstKeys(seen', rest);
        var r := [s[0]] + tail;
        forall j, k | 0 <= j < k < |r| ensures Key(r[j]) != Key(r[k]) {
          assert r[k] == tail[k - 1];
          if j == 0 {
            assert Key(tail[k - 1]) in Keys(tail);
          } else {
            assert r[j] == tail[j - 1];
          }
        }
      }
    }
  }

  /** The kept entries are a sub-list of the input, in the input's order. */
  lemma {:induction false} KeepFirstIsSubsequence(seen: set<RequirementKey>, s: seq<DialogRequirement>)
    ensures IsSubsequence(KeepFirst(seen, s), s)
    decreases |s|
  {
    if s != [] {
      assert [s[0]] + s[1..] == s;
      if Key(s[0]) in seen {
        KeepFirstIsSubsequence(seen, s[1..]);
        SubsequenceExtend(KeepFirst(seen, s[1..]), s[1..], s[0]);
      } else {
        var rest := KeepFirst(seen + {Key(s[0])}, s[1..]);
        KeepFirstIsSubsequence(seen + {Key(s[0])}, s[1..]);
        assert ([s[0]] + rest)[1..] == rest;
      }
    }
  }

  /** The first entry of each key not in `seen` is kept. */
  lemma {:induction false} KeepFirstKeepsFirst(seen: set<RequirementKey>, s: seq<DialogRequirement>, i: nat)
    requires i < |s| && Key(s[i]) !in seen && FirstOfKey(s, i)
    ensures s[i] in KeepFirst(seen, s)
    decreases |s|
  {
    if i > 0 {
      var seen' := if Key(s[0]) in seen then seen else seen + {Key(s[0])};
      assert Key(s[0]) != Key(s[i]);
      assert FirstOfKey(s[1..], i - 1) by {
        forall j | 0 <= j < i - 1 ensures Key(s[1..][j]) != Key(s[1..][i - 1]) {
          assert s[1..][j] == s[j + 1];
        }
      }
      KeepFirstKeepsFirst(seen', s[1..], i - 1);
    }
  }

  /** A list whose keys are distinct and unseen is kept whole. */
  lemma {:induction false} KeepFirstOfDistinct(seen: set<RequirementKey>, s: seq<DialogRequirement>)
    requires DistinctKeys(s) && Keys(s) !! seen
    ensures KeepFirst(seen, s) == s
    decreases |s|
  {
    if s != [] {
      assert s[0] in s;
      var rest := s[1..];
      assert DistinctKeys(rest) by {
        forall j, k | 0 <= j < k < |rest| ensures Key(rest[j]) != Key(rest[k]) {
          assert rest[j] == s[j + 1] && rest[k] == s[k + 1];
        }
      }
      assert Keys(rest) !! seen + {Key(s[0])} by {
        KeysCons(s[0], rest);
        assert [s[0]] + rest == s;
        forall m | 0 <= m < |rest| ensures Key(rest[m]) != Key(s[0]) {
          assert rest[m] == s[m + 1];
        }
      }
      KeepFirstOfDistinct(seen + {Key(s[0])}, rest);
      assert [s[0]] + rest == s;
    }
  }

  /** Removing duplicates twice is removing them once. */
  lemma RemoveDuplicatesIdempotent(source: seq<DialogRequirement>)
    ensures KeepFirst({}, KeepFirst({}, source)) == KeepFirst({}, source)
  {
    KeepFirstDistinct({}, source);
    KeepFirstOfDistinct({}, KeepFirst({}, source));
  }
}
