/**
 * The index-tag algebra: the compile-time metafunctions over ordered packs of
 * index tags that decide which axes of a tensor expression are free and which
 * are contracted.  Tags are characters (the library's `Index<'i'>`), a pack is
 * a sequence of tags, and every metafunction is a total recursive function
 * whose cases follow the partial specialisations one for one.
 */
module TagAlgebra {

  type Tag = char
  type Pack = seq<Tag>

  // ----------------------------------------------------------------------
  // Template_Power

  /** base raised to exponent, by the recursion base * base^(exponent-1). */
  function Power(base: nat, exponent: nat): nat
  {
    if exponent == 0 then 1 else base * Power(base, exponent - 1)
  }

  lemma {:induction false} PowerAdd(base: nat, m: nat, n: nat)
    ensures Power(base, m + n) == Power(base, m) * Power(base, n)
  {
    if m > 0 {
      PowerAdd(base, m - 1, n);
      calc {
        Power(base, m + n);
        base * Power(base, (m - 1) + n);
        base * (Power(base, m - 1) * Power(base, n));
        (base * Power(base, m - 1)) * Power(base, n);
      }
    }
  }

  lemma {:induction false} PowerPositive(base: nat, exponent: nat)
    requires base >= 1
    ensures Power(base, exponent) >= 1
  {
    if exponent > 0 {
      PowerPositive(base, exponent - 1);
    }
  }

  // ----------------------------------------------------------------------
  // Occurrence counting (the reference notion the lemmas are stated in)

  function Count(t: Tag, s: Pack): nat
  {
    if |s| == 0 then 0 else (if s[0] == t then 1 else 0) + Count(t, s[1..])
  }

  lemma {:induction false} CountAppend(t: Tag, a: Pack, b: Pack)
    ensures Count(t, a + b) == Count(t, a) + Count(t, b)
  {
    if |a| == 0 {
      assert a + b == b;
    } else {
      assert (a + b)[1..] == a[1..] + b;
      CountAppend(t, a[1..], b);
    }
  }

  lemma {:induction false} CountPositive(t: Tag, s: Pack)
    ensures Count(t, s) > 0 <==> t in s
  {
    if |s| > 0 {
      CountPositive(t, s[1..]);
      assert s == [s[0]] + s[1..];
    }
  }

  lemma EmptyWhenNoMember(s: Pack)
    ensures (forall t :: t !in s) ==> s == []
  {
    if |s| > 0 {
      assert s[0] in s;
    }
  }

  /** No tag occurs twice. */
  predicate NoDup(s: Pack)
  {
    |s| == 0 || (s[0] !in s[1..] && NoDup(s[1..]))
  }

  lemma {:induction false} NoDupCount(s: Pack)
    ensures NoDup(s) ==> forall t :: Count(t, s) <= 1
    ensures (forall t :: Count(t, s) <= 1) ==> NoDup(s)
  {
    if |s| > 0 {
      NoDupCount(s[1..]);
      CountPositive(s[0], s[1..]);
      assert forall t :: Count(t, s) == (if s[0] == t then 1 else 0) + Count(t, s[1..]);
      if forall t :: Count(t, s) <= 1 {
        assert Count(s[0], s) <= 1;
        forall t ensures Count(t, s[1..]) <= 1 {
          assert Count(t, s) <= 1;
        }
        assert NoDup(s[1..]);
        assert s[0] !in s[1..];
        assert NoDup(s);
      }
      if NoDup(s) {
        forall t ensures Count(t, s) <= 1 {
          assert Count(t, s[1..]) <= 1;
        }
      }
    }
  }

  lemma {:induction false} NoDupDistinct(s: Pack)
    requires NoDup(s)
    ensures forall i, j :: 0 <= i < j < |s| ==> s[i] != s[j]
  {
    if |s| > 0 {
      NoDupDistinct(s[1..]);
      forall i, j | 0 <= i < j < |s| ensures s[i] != s[j] {
        if i == 0 {
          assert s[j] == s[1..][j - 1];
        } else {
          assert s[i] == s[1..][i - 1] && s[j] == s[1..][j - 1];
        }
      }
    }
  }

  lemma {:induction false} NoDupMultiset(s: Pack)
    requires NoDup(s)
    ensures forall t :: multiset(s)[t] == if t in s then 1 else 0
  {
    if |s| > 0 {
      NoDupMultiset(s[1..]);
      assert s == [s[0]] + s[1..];
      assert multiset(s) == multiset{s[0]} + multiset(s[1..]);
      forall t ensures multiset(s)[t] == if t in s then 1 else 0 {
        assert t in s <==> t == s[0] || t in s[1..];
      }
    }
  }

  /**
   * a is an order-preserving subsequence of b: a can be obtained from b by
   * deleting elements.
   */
  predicate Subsequence(a: Pack, b: Pack)
    decreases |b|
  {
    if |b| == 0 then |a| == 0
    else Subsequence(a, b[1..]) || (|a| > 0 && a[0] == b[0] && Subsequence(a[1..], b[1..]))
  }

  // ----------------------------------------------------------------------
  // Template_Locate_Nth_Key_Type and Template_Locate_Key_Type

  /**
   * The zero-based position of the position-th occurrence of key in s, or
   * |s| when there are not that many occurrences.
   */
  function LocateNth(position: nat, key: Tag, s: Pack): nat
  {
    if |s| == 0 then 0
    else if s[0] != key then 1 + LocateNth(position, key, s[1..])
    else if position == 0 then 0
    else 1 + LocateNth(position - 1, key, s[1..])
  }

  /** The position of the first occurrence of key. */
  function LocateKey(key: Tag, s: Pack): nat
  {
    LocateNth(0, key, s)
  }

  lemma {:induction false} LocateNthSpec(position: nat, key: Tag, s: Pack)
    ensures Count(key, s) > position ==>
              && LocateNth(position, key, s) < |s|
              && s[LocateNth(position, key, s)] == key
              && Count(key, s[..LocateNth(position, key, s)]) == position
    ensures Count(key, s) <= position ==> LocateNth(position, key, s) == |s|
  {
    if |s| > 0 {
      if s[0] == key && position == 0 {
        assert s[..0] == [];
      } else {
        var p := if s[0] == key then position - 1 else position;
        LocateNthSpec(p, key, s[1..]);
        var r := LocateNth(p, key, s[1..]);
        if Count(key, s[1..]) > p {
          assert s[..r + 1][0] == s[0];
          assert s[..r + 1][1..] == s[1..][..r];
        }
      }
    }
  }

  /** Shorthand used by the expression engine: the first occurrence of a present key. */
  lemma LocateKeyInRange(key: Tag, s: Pack)
    requires key in s
    ensures LocateKey(key, s) < |s| && s[LocateKey(key, s)] == key
    ensures forall k :: 0 <= k < LocateKey(key, s) ==> s[k] != key
  {
    CountPositive(key, s);
    LocateNthSpec(0, key, s);
    var r := LocateKey(key, s);
    forall k | 0 <= k < r ensures s[k] != key {
      CountPositive(key, s[..r]);
      assert s[..r][k] == s[k];
    }
  }

  // ----------------------------------------------------------------------
  // Template_Key_In_Pack

  function KeyInPack(key: Tag, s: Pack): (r: bool)
    ensures r <==> key in s
  {
    if |s| == 0 then false
    else if s[0] == key then true
    else KeyInPack(key, s[1..])
  }

  // ----------------------------------------------------------------------
  // Template_Get_Repeats

  /** Keeps each tag that occurs again later in the pack, in order. */
  function GetRepeats(s: Pack): Pack
  {
    if |s| == 0 then []
    else (if KeyInPack(s[0], s[1..]) then [s[0]] else []) + GetRepeats(s[1..])
  }

  lemma {:induction false} GetRepeatsSpec(s: Pack)
    ensures forall t :: Count(t, GetRepeats(s)) == if Count(t, s) == 0 then 0 else Count(t, s) - 1
    ensures forall t :: t in GetRepeats(s) <==> Count(t, s) >= 2
    ensures Subsequence(GetRepeats(s), s)
  {
    if |s| > 0 {
      GetRepeatsSpec(s[1..]);
      var head := if KeyInPack(s[0], s[1..]) then [s[0]] else [];
      CountPositive(s[0], s[1..]);
      forall t ensures Count(t, GetRepeats(s)) == if Count(t, s) == 0 then 0 else Count(t, s) - 1 {
        CountAppend(t, head, GetRepeats(s[1..]));
      }
      forall t ensures t in GetRepeats(s) <==> Count(t, s) >= 2 {
        CountPositive(t, GetRepeats(s));
      }
      if head == [] {
        assert GetRepeats(s) == GetRepeats(s[1..]);
      } else {
        assert GetRepeats(s)[1..] == GetRepeats(s[1..]);
      }
    }
  }

  // ----------------------------------------------------------------------
  // Template_Remove_Type, single-key form

  /** Deletes every occurrence of key. */
  function RemoveType(key: Tag, s: Pack): Pack
  {
    if |s| == 0 then []
    else (if key == s[0] then [] else [s[0]]) + RemoveType(key, s[1..])
  }

  lemma {:induction false} RemoveTypeSpec(key: Tag, s: Pack)
    ensures key !in RemoveType(key, s)
    ensures |RemoveType(key, s)| == |s| - Count(key, s)
    ensures forall t :: t != key ==> Count(t, RemoveType(key, s)) == Count(t, s)
    ensures forall t :: t in RemoveType(key, s) <==> t in s && t != key
    ensures Subsequence(RemoveType(key, s), s)
  {
    if |s| > 0 {
      RemoveTypeSpec(key, s[1..]);
      var head := if key == s[0] then [] else [s[0]];
      var r := RemoveType(key, s);
      assert r == head + RemoveType(key, s[1..]);
      forall t | t != key ensures Count(t, r) == Count(t, s) {
        CountAppend(t, head, RemoveType(key, s[1..]));
      }
      assert s == [s[0]] + s[1..];
      if head != [] {
        assert r[0] == s[0] && r[1..] == RemoveType(key, s[1..]);
      } else {
        assert r == RemoveType(key, s[1..]);
      }
    }
  }

  // ----------------------------------------------------------------------
  // Template_Remove_Type, pack form: removes every key of the first pack

  function RemoveTypes(keys: Pack, s: Pack): Pack
  {
    if |keys| == 0 then s else RemoveTypes(keys[1..], RemoveType(keys[0], s))
  }

  /** Independent reference: keep exactly the elements that are not keys. */
  function FilterOut(s: Pack, keys: Pack): Pack
  {
    if |s| == 0 then []
    else (if s[0] in keys then [] else [s[0]]) + FilterOut(s[1..], keys)
  }

  lemma {:induction false} FilterOutRemoveType(key: Tag, keys: Pack, s: Pack)
    ensures FilterOut(RemoveType(key, s), keys) == FilterOut(s, [key] + keys)
  {
    if |s| > 0 {
      FilterOutRemoveType(key, keys, s[1..]);
      assert (s[0] in [key] + keys) <==> s[0] == key || s[0] in keys;
      if key != s[0] {
        assert RemoveType(key, s) == [s[0]] + RemoveType(key, s[1..]);
        assert ([s[0]] + RemoveType(key, s[1..]))[0] == s[0];
        assert ([s[0]] + RemoveType(key, s[1..]))[1..] == RemoveType(key, s[1..]);
      } else {
        assert RemoveType(key, s) == RemoveType(key, s[1..]);
      }
    }
  }

  lemma {:induction false} RemoveTypesIsFilterOut(keys: Pack, s: Pack)
    ensures RemoveTypes(keys, s) == FilterOut(s, keys)
  {
    if |keys| == 0 {
      FilterOutNothing(s);
    } else {
      RemoveTypesIsFilterOut(keys[1..], RemoveType(keys[0], s));
      FilterOutRemoveType(keys[0], keys[1..], s);
      assert [keys[0]] + keys[1..] == keys;
    }
  }

  lemma {:induction false} FilterOutNothing(s: Pack)
    ensures FilterOut(s, []) == s
  {
    if |s| > 0 {
      FilterOutNothing(s[1..]);
      assert s == [s[0]] + s[1..];
    }
  }

  lemma {:induction false} FilterOutSpec(s: Pack, keys: Pack)
    ensures forall t :: Count(t, FilterOut(s, keys)) == if t in keys then 0 else Count(t, s)
    ensures Subsequence(FilterOut(s, keys), s)
  {
    if |s| > 0 {
      FilterOutSpec(s[1..], keys);
      var head := if s[0] in keys then [] else [s[0]];
      forall t ensures Count(t, FilterOut(s, keys)) == if t in keys then 0 else Count(t, s) {
        CountAppend(t, head, FilterOut(s[1..], keys));
      }
      if head != [] {
        assert FilterOut(s, keys)[0] == s[0];
        assert FilterOut(s, keys)[1..] == FilterOut(s[1..], keys);
      } else {
        assert FilterOut(s, keys) == FilterOut(s[1..], keys);
      }
    }
  }

  lemma RemoveTypesSpec(keys: Pack, s: Pack)
    ensures forall t :: Count(t, RemoveTypes(keys, s)) == if t in keys then 0 else Count(t, s)
    ensures Subsequence(RemoveTypes(keys, s), s)
  {
    RemoveTypesIsFilterOut(keys, s);
    FilterOutSpec(s, keys);
  }

  // ----------------------------------------------------------------------
  // Template_Remove_Repeats

  /** The tags of s that occur exactly once, in their original order. */
  function RemoveRepeats(s: Pack): Pack
  {
    RemoveTypes(GetRepeats(s), s)
  }

  lemma RemoveRepeatsSpec(s: Pack)
    ensures forall t :: Count(t, RemoveRepeats(s)) == if Count(t, s) == 1 then 1 else 0
    ensures forall t :: t in RemoveRepeats(s) <==> Count(t, s) == 1
    ensures NoDup(RemoveRepeats(s))
    ensures Subsequence(RemoveRepeats(s), s)
  {
    GetRepeatsSpec(s);
    RemoveTypesSpec(GetRepeats(s), s);
    var r := RemoveRepeats(s);
    forall t ensures t in r <==> Count(t, s) == 1 {
      CountPositive(t, r);
    }
    NoDupCount(r);
  }

  lemma {:induction false} NoRepeatsKeepsPack(s: Pack)
    requires GetRepeats(s) == []
    ensures RemoveRepeats(s) == s
    ensures NoDup(s)
  {
    GetRepeatsSpec(s);
    NoDupCount(s);
  }

  /**
   * For two duplicate-free free lists, the repeats of their concatenation
   * are the shared tags (the contracted axes) and the rest are the tags in
   * exactly one of them (the free axes of a product).
   */
  lemma {:induction false} ProductPacks(f1: Pack, f2: Pack)
    requires NoDup(f1) && NoDup(f2)
    ensures forall t :: t in GetRepeats(f1 + f2) <==> t in f1 && t in f2
    ensures forall t :: t in RemoveRepeats(f1 + f2) <==> (t in f1 <==> t !in f2)
    ensures NoDup(GetRepeats(f1 + f2))
  {
    NoDupCount(f1);
    NoDupCount(f2);
    GetRepeatsSpec(f1 + f2);
    RemoveRepeatsSpec(f1 + f2);
    forall t ensures 1 >= Count(t, GetRepeats(f1 + f2))
           && (t in GetRepeats(f1 + f2) <==> t in f1 && t in f2)
           && (t in RemoveRepeats(f1 + f2) <==> (t in f1 <==> t !in f2))
    {
      CountAppend(t, f1, f2);
      CountPositive(t, f1);
      CountPositive(t, f2);
    }
    NoDupCount(GetRepeats(f1 + f2));
  }

  // ----------------------------------------------------------------------
  // Template_Equal_Packs

  /**
   * Matches the head of a against b, then removes ALL copies of it from b
   * before comparing the rest.
   */
  function EqualPacks(a: Pack, b: Pack): bool
  {
    if |a| == 0 then |b| == 0
    else KeyInPack(a[0], b) && EqualPacks(a[1..], RemoveType(a[0], b))
  }

  predicate SameTags(a: Pack, b: Pack)
  {
    forall t :: t in a <==> t in b
  }

  /** What the recursion decides: a is duplicate-free and has exactly b's tags. */
  lemma {:induction false} EqualPacksMeaning(a: Pack, b: Pack)
    ensures EqualPacks(a, b) <==> NoDup(a) && SameTags(a, b)
  {
    if |a| == 0 {
      if |b| > 0 {
        assert b[0] in b;
      }
    } else {
      var x, b' := a[0], RemoveType(a[0], b);
      EqualPacksMeaning(a[1..], b');
      RemoveTypeSpec(x, b);
      assert a == [x] + a[1..];
      assert forall t :: t in a <==> t == x || t in a[1..];
    }
  }

  /** On duplicate-free packs, pack equality is "permutation of each other". */
  lemma EqualPacksPermutation(a: Pack, b: Pack)
    requires NoDup(a) && NoDup(b)
    ensures EqualPacks(a, b) <==> multiset(a) == multiset(b)
  {
    EqualPacksMeaning(a, b);
    NoDupMultiset(a);
    NoDupMultiset(b);
    if multiset(a) == multiset(b) {
      forall t ensures t in a <==> t in b {
        assert multiset(a)[t] == multiset(b)[t];
      }
    }
    if SameTags(a, b) {
      forall t ensures multiset(a)[t] == multiset(b)[t] {
      }
    }
  }

  /** The corner cases of the recursion, including the two quirks. */
  lemma EqualPacksCorners(b: Pack)
    requires |b| > 0
    ensures EqualPacks([], [])
    ensures !EqualPacks([], b)
    ensures EqualPacks(['a'], ['a', 'a'])
    ensures !EqualPacks(['a', 'a'], ['a', 'a'])
    ensures !EqualPacks(['a', 'a'], ['a'])
  {
  }
}
