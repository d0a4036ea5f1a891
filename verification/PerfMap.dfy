/** The perf map of an AOT module: function pointers sorted by address, with derived sizes. */
module PerfMap {
  import opened Words

  datatype FuncInfo = FuncInfo(idx: nat, ptr: nat)

  /** The fields of AOTModule that the map is made from; addresses are uintptr_t. */
  datatype AotModule = AotModule(code: nat, codeSize: word, funcPtrs: seq<nat>)

  /** All functions in index order: what the fill loop stores. */
  function Infos(ptrs: seq<nat>): (s: seq<FuncInfo>)
    ensures |s| == |ptrs| && forall i :: 0 <= i < |s| ==> s[i] == FuncInfo(i, ptrs[i])
  {
    seq(|ptrs|, i requires 0 <= i < |ptrs| => FuncInfo(i, ptrs[i]))
  }

  ghost predicate Sorted(s: seq<FuncInfo>) {
    forall i, j :: 0 <= i < j < |s| ==> s[i].ptr <= s[j].ptr
  }

  /** The contract of qsort with compare_func_ptrs: sorted by address, and the same entries. */
  ghost predicate SortedOf(s: seq<FuncInfo>, ptrs: seq<nat>) {
    Sorted(s) && multiset(s) == multiset(Infos(ptrs))
  }

  /** compare_func_ptrs. */
  function Compare(f1: FuncInfo, f2: FuncInfo): (c: int)
    ensures c < 0 <==> f1.ptr < f2.ptr
    ensures c > 0 <==> f1.ptr > f2.ptr
  {
    if f1.ptr < f2.ptr then -1 else if f1.ptr > f2.ptr then 1 else 0
  }

  /** get_func_size: the difference of two addresses, cut to 32 bits. */
  function FuncSize(m: AotModule, s: seq<FuncInfo>, idx: nat): word
    requires idx < |s|
  {
    if idx == |s| - 1 then ToWord(m.code + m.codeSize - s[idx].ptr)
    else ToWord(s[idx + 1].ptr - s[idx].ptr)
  }

  // ----- sorting -----

  method Swap(a: array<FuncInfo>, i: nat)
    requires 0 < i < a.Length
    modifies a
    ensures a[..] == old(a[..])[i := old(a[i - 1])][i - 1 := old(a[i])]
    ensures multiset(a[..]) == multiset(old(a[..]))
  {
    a[i - 1], a[i] := a[i], a[i - 1];
    assert a[..] == old(a[..])[i := old(a[i - 1])][i - 1 := old(a[i])];
  }

  /** Sorted but for the entry at j, which belongs further left. */
  ghost predicate SortedBut(s: seq<FuncInfo>, n: nat, j: nat)
    requires j < n <= |s|
  {
    && (forall p, q :: 0 <= p < q < n && p != j && q != j ==> s[p].ptr <= s[q].ptr)
    && (forall q :: j < q < n ==> s[j].ptr <= s[q].ptr)
  }

  /** One insertion. */
  method Insert(a: array<FuncInfo>, n: nat)
    requires n < a.Length && Sorted(a[..n])
    modifies a
    ensures Sorted(a[..n + 1]) && multiset(a[..]) == multiset(old(a[..]))
  {
    hide Sorted, SortedBut, Compare;
    var j: nat := n;
    assert SortedBut(a[..], n + 1, j) by {
      StartInsert(a[..], n);
    }
    while j > 0 && Compare(a[j - 1], a[j]) > 0
      invariant j <= n && SortedBut(a[..], n + 1, j)
      invariant multiset(a[..]) == multiset(old(a[..]))
    {
      StepInsert(a[..], n + 1, j);
      Swap(a, j);
      j := j - 1;
    }
    EndInsert(a[..], n, j);
    assert a[..n + 1] == a[..][..n + 1];
  }

  lemma {:induction false} StartInsert(s: seq<FuncInfo>, n: nat)
    requires n < |s| && Sorted(s[..n])
    ensures SortedBut(s, n + 1, n)
  {
  }

  lemma {:induction false} StepInsert(s: seq<FuncInfo>, n: nat, j: nat)
    requires 0 < j < n <= |s| && SortedBut(s, n, j) && s[j - 1].ptr > s[j].ptr
    ensures SortedBut(s[j := s[j - 1]][j - 1 := s[j]], n, j - 1)
  {
  }

  lemma {:induction false} EndInsert(s: seq<FuncInfo>, n: nat, j: nat)
    requires j <= n < |s| && SortedBut(s, n + 1, j) && (j == 0 || s[j - 1].ptr <= s[j].ptr)
    ensures Sorted(s[..n + 1])
  {
    forall p, q | 0 <= p < q < n + 1
      ensures s[p].ptr <= s[q].ptr
    {
      if q == j && p < j - 1 {
        assert s[p].ptr <= s[j - 1].ptr;
      }
    }
  }

  /** sort_func_ptrs; `enoughMemory` says whether the allocation succeeds. */
  method SortFuncPtrs(m: AotModule, enoughMemory: bool) returns (r: Option<array<FuncInfo>>)
    ensures r.None? <==> !enoughMemory
    ensures r.Some? ==> fresh(r.value) && SortedOf(r.value[..], m.funcPtrs)
  {
    if !enoughMemory {
      return None;
    }
    var n := |m.funcPtrs|;
    var a := new FuncInfo[n](_ => FuncInfo(0, 0));
    for i := 0 to n
      invariant forall k :: 0 <= k < i ==> a[k] == FuncInfo(k, m.funcPtrs[k])
    {
      a[i] := FuncInfo(i, m.funcPtrs[i]);
    }
    assert a[..] == Infos(m.funcPtrs);
    for i := 0 to n
      invariant Sorted(a[..i]) && multiset(a[..]) == multiset(Infos(m.funcPtrs))
    {
      Insert(a, i);
    }
    assert a[..n] == a[..];
    r := Some(a);
  }

  // ----- the map -----

  /** Every function appears exactly once. */
  lemma {:induction false} EveryFunctionOnce(s: seq<FuncInfo>, ptrs: seq<nat>)
    requires SortedOf(s, ptrs)
    ensures |s| == |ptrs|
    ensures forall i :: 0 <= i < |ptrs| ==> FuncInfo(i, ptrs[i]) in s
    ensures forall k :: 0 <= k < |s| ==> s[k].idx < |ptrs| && s[k].ptr == ptrs[s[k].idx]
    ensures forall j, k :: 0 <= j < k < |s| ==> s[j].idx != s[k].idx
  {
    var t := Infos(ptrs);
    assert |s| == |multiset(s)| && |t| == |multiset(t)|;
    forall i | 0 <= i < |ptrs|
      ensures FuncInfo(i, ptrs[i]) in s
    {
      assert t[i] in multiset(t);
    }
    forall k | 0 <= k < |s|
      ensures s[k] in t
    {
      assert s[k] in multiset(s);
    }
    forall j, k | 0 <= j < k < |s|
      ensures s[j].idx != s[k].idx
    {
      if s[j].idx == s[k].idx {
        TwoCopies(s, j, k);
        OneCopy(t, s[j].idx);
      }
    }
  }

  lemma {:induction false} TwoCopies(s: seq<FuncInfo>, j: nat, k: nat)
    requires j < k < |s| && s[j] == s[k]
    ensures multiset(s)[s[j]] >= 2
  {
    assert s == s[..k] + s[k..];
    assert s[j] in s[..k] && s[k] in s[k..];
    assert multiset(s) == multiset(s[..k]) + multiset(s[k..]);
  }

  lemma {:induction false} OneCopy(t: seq<FuncInfo>, i: nat)
    requires i < |t| && forall k :: 0 <= k < |t| ==> t[k].idx == k
    ensures multiset(t)[t[i]] == 1
  {
    assert t == t[..i] + [t[i]] + t[i + 1..];
    assert t[i] !in t[..i] && t[i] !in t[i + 1..];
  }

  /** Where the k-th entry ends: at the next one, or at the end of the code. */
  function EndOf(m: AotModule, s: seq<FuncInfo>, k: nat): nat
    requires k < |s|
  {
    if k == |s| - 1 then m.code + m.codeSize else s[k + 1].ptr
  }

  /** The sizes are the true distances exactly when no distance is negative or needs more than 32
      bits. */
  lemma {:induction false} SizeExactIff(m: AotModule, s: seq<FuncInfo>, k: nat)
    requires k < |s|
    ensures s[k].ptr + FuncSize(m, s, k) == EndOf(m, s, k) <==>
      0 <= EndOf(m, s, k) - s[k].ptr < 0x1_0000_0000
  {
  }

  ghost predicate InCode(m: AotModule) {
    forall i :: 0 <= i < |m.funcPtrs| ==> m.code <= m.funcPtrs[i] <= m.code + m.codeSize
  }

  /** With all pointers in the code region, each range ends where the next begins, and the last ends at
      the end of the code. */
  lemma {:induction false} RangesTile(m: AotModule, s: seq<FuncInfo>, k: nat)
    requires SortedOf(s, m.funcPtrs) && InCode(m) && k < |s|
    ensures s[k].ptr + FuncSize(m, s, k) == EndOf(m, s, k)
  {
    EveryFunctionOnce(s, m.funcPtrs);
    SizeExactIff(m, s, k);
  }

  function SizeSum(m: AotModule, s: seq<FuncInfo>, k: nat): nat
    requires k <= |s|
    decreases |s| - k
  {
    if k == |s| then 0 else FuncSize(m, s, k) + SizeSum(m, s, k + 1)
  }

  /** The sizes add up to the span from the lowest pointer to the end of the code. */
  lemma {:induction false} SizesSum(m: AotModule, s: seq<FuncInfo>, k: nat)
    requires SortedOf(s, m.funcPtrs) && InCode(m) && k < |s|
    ensures s[k].ptr + SizeSum(m, s, k) == m.code + m.codeSize
    decreases |s| - k
  {
    hide SortedOf, InCode, FuncSize;
    RangesTile(m, s, k);
    if k < |s| - 1 {
      SizesSum(m, s, k + 1);
    }
  }

  ghost predicate Covers(m: AotModule, s: seq<FuncInfo>, k: nat, x: nat)
    requires k < |s|
  {
    s[k].ptr <= x < s[k].ptr + FuncSize(m, s, k)
  }

  /** Every code address from the lowest pointer on lies in exactly one range. */
  lemma {:induction false} CoveredOnce(m: AotModule, s: seq<FuncInfo>, x: nat) returns (k: nat)
    requires SortedOf(s, m.funcPtrs) && InCode(m) && |s| > 0 && s[0].ptr <= x < m.code + m.codeSize
    ensures k < |s| && Covers(m, s, k, x)
    ensures forall j: nat :: j < |s| && j != k ==> !Covers(m, s, j, x)
  {
    hide FuncSize;
    k := 0;
    while k < |s| - 1 && s[k + 1].ptr <= x
      invariant k < |s| && s[k].ptr <= x
    {
      k := k + 1;
    }
    RangesTile(m, s, k);
    forall j: nat | j < |s| && j != k
      ensures !Covers(m, s, j, x)
    {
      RangesTile(m, s, j);
      if j < k {
        assert s[j + 1].ptr <= s[k].ptr;
      } else {
        assert s[k + 1].ptr <= s[j].ptr;
      }
    }
  }
}
