/** The option list: the split-option filter, replacement followed by an unstable sort, and deletion. */
module Options {
  import opened Numbers
  import opened Packets

  // ----- Counting types -----

  function Count(opts: seq<DhcpOption>, t: Byte): nat {
    if opts == [] then 0
    else Count(opts[..|opts| - 1], t) + if opts[|opts| - 1].typ == t then 1 else 0
  }

  lemma {:induction false} CountConcat(a: seq<DhcpOption>, b: seq<DhcpOption>, t: Byte)
    ensures Count(a + b, t) == Count(a, t) + Count(b, t)
  {
    if b == [] {
      assert a + b == a;
    } else {
      assert (a + b)[..|a + b| - 1] == a + b[..|b| - 1];
      CountConcat(a, b[..|b| - 1], t);
    }
  }

  lemma {:induction false} CountPositive(opts: seq<DhcpOption>, k: nat)
    requires k < |opts|
    ensures Count(opts, opts[k].typ) >= 1
  {
    if k < |opts| - 1 {
      CountPositive(opts[..|opts| - 1], k);
    }
  }

  lemma {:induction false} CountZero(opts: seq<DhcpOption>, t: Byte)
    requires forall k :: 0 <= k < |opts| ==> opts[k].typ != t
    ensures Count(opts, t) == 0
  {
    if opts != [] {
      CountZero(opts[..|opts| - 1], t);
    }
  }

  /** Two positions of one type are counted twice. */
  lemma {:induction false} CountPair(opts: seq<DhcpOption>, i: nat, j: nat)
    requires i < j < |opts| && opts[i].typ == opts[j].typ
    ensures Count(opts, opts[i].typ) >= 2
  {
    assert opts == opts[..j] + opts[j..];
    CountConcat(opts[..j], opts[j..], opts[i].typ);
    CountPositive(opts[..j], i);
    CountPositive(opts[j..], 0);
  }

  lemma {:induction false} CountRemove(b: seq<DhcpOption>, k: nat, t: Byte)
    requires k < |b|
    ensures Count(b, t) == Count(b[..k] + b[k + 1..], t) + if b[k].typ == t then 1 else 0
  {
    assert b == b[..k] + ([b[k]] + b[k + 1..]);
    CountConcat(b[..k], [b[k]] + b[k + 1..], t);
    CountConcat([b[k]], b[k + 1..], t);
    CountConcat(b[..k], b[k + 1..], t);
  }

  lemma {:induction false} CountPermutation(a: seq<DhcpOption>, b: seq<DhcpOption>, t: Byte)
    requires multiset(a) == multiset(b)
    ensures Count(a, t) == Count(b, t)
    decreases |a|
  {
    if a == [] {
      assert |b| == |multiset(b)| == |multiset(a)| == 0;
    } else {
      var x := a[|a| - 1];
      var a' := a[..|a| - 1];
      assert a == a' + [x];
      assert x in multiset(b);
      var k :| 0 <= k < |b| && b[k] == x;
      var b' := b[..k] + b[k + 1..];
      MultisetRemove(b, k);
      assert multiset(a') == multiset(a) - multiset{x};
      CountPermutation(a', b', t);
      CountRemove(b, k, t);
    }
  }

  // ----- Split options -----

  /** The index of the first End option, or the length of the list. */
  function FirstEnd(opts: seq<DhcpOption>): (n: nat)
    ensures n <= |opts|
    ensures forall k :: 0 <= k < n ==> opts[k].typ != END
    ensures n < |opts| ==> opts[n].typ == END
  {
    if opts == [] || opts[0].typ == END then 0 else 1 + FirstEnd(opts[1..])
  }

  /** Whether an option of the list `all` is one the relay keeps: not padding and not one of several fragments. */
  predicate Unsplit(all: seq<DhcpOption>, o: DhcpOption) {
    o.typ != PAD && Count(all, o.typ) == 1
  }

  function KeepUnsplit(all: seq<DhcpOption>, s: seq<DhcpOption>): (r: seq<DhcpOption>)
  {
    if s == [] then []
    else KeepUnsplit(all, s[..|s| - 1]) + if Unsplit(all, s[|s| - 1]) then [s[|s| - 1]] else []
  }

  /** The list after the filter: the kept options before the first End, then that End. */
  function WithoutSplits(opts: seq<DhcpOption>): (r: seq<DhcpOption>) {
    var e := FirstEnd(opts);
    KeepUnsplit(opts, opts[..e]) + if e < |opts| then [opts[e]] else []
  }

  /** What the filter establishes: no padding, no type twice, nothing after an End. */
  ghost predicate Clean(opts: seq<DhcpOption>) {
    && (forall k :: 0 <= k < |opts| ==> Unsplit(opts, opts[k]))
    && (forall k :: 0 <= k < |opts| - 1 ==> opts[k].typ != END)
  }

  /** One past the part of the list the filter may rewrite. */
  function FilterReach(opts: seq<DhcpOption>): (n: nat)
    ensures n <= |opts|
  {
    if FirstEnd(opts) < |opts| then FirstEnd(opts) + 1 else |opts|
  }

  lemma {:induction false} KeepUnsplitStep(all: seq<DhcpOption>, k: nat)
    requires k < |all|
    ensures KeepUnsplit(all, all[..k + 1]) == KeepUnsplit(all, all[..k]) + if Unsplit(all, all[k]) then [all[k]] else []
  {
    assert all[..k + 1][..k] == all[..k];
  }

  lemma {:induction false} KeepUnsplitNothing(all: seq<DhcpOption>)
    ensures KeepUnsplit(all, all[..0]) == []
  {
  }

  /** The number of options of each type, padding and End aside. */
  method CountTypes(opts: seq<DhcpOption>) returns (counts: map<Byte, nat>)
    ensures forall t: Byte | t != PAD && t != END :: (if t in counts then counts[t] else 0) == Count(opts, t)
  {
    counts := map[];
    for k := 0 to |opts|
      invariant forall t: Byte | t != PAD && t != END :: (if t in counts then counts[t] else 0) == Count(opts[..k], t)
    {
      assert opts[..k + 1][..k] == opts[..k];
      var t := opts[k].typ;
      if t == PAD || t == END {
        continue;
      }
      counts := counts[t := (if t in counts then counts[t] else 0) + 1];
    }
    assert opts[..|opts|] == opts;
  }

  /** In place: `a[..n]` is the filtered list. Elements after the first End are untouched. */
  method DeleteSplitOptions(a: array<DhcpOption>) returns (n: nat)
    modifies a
    ensures n <= a.Length
    ensures a[..n] == WithoutSplits(old(a[..]))
    ensures forall j :: FilterReach(old(a[..])) <= j < a.Length ==> a[j] == old(a[j])
  {
    hide Count, KeepUnsplit;
    ghost var was := a[..];
    var counts := CountTypes(a[..]);
    KeepUnsplitNothing(was);
    n := 0;
    for k := 0 to a.Length
      invariant n <= k <= FirstEnd(was)
      invariant forall j :: k <= j < a.Length ==> a[j] == was[j]
      invariant a[..n] == KeepUnsplit(was, was[..k])
    {
      var option := a[k];
      if option.typ == END {
        a[n] := option;
        n := n + 1;
        return;
      }
      CountPositive(was, k);
      KeepUnsplitStep(was, k);
      if option.typ == PAD || option.typ !in counts || counts[option.typ] != 1 {
        continue;
      }
      a[n] := option;
      n := n + 1;
    }
    assert was[..a.Length] == was;
  }

  // ----- What the filter guarantees -----

  lemma {:induction false} KeepUnsplitMembers(all: seq<DhcpOption>, s: seq<DhcpOption>, o: DhcpOption)
    ensures o in KeepUnsplit(all, s) <==> o in s && Unsplit(all, o)
  {
    if s != [] {
      KeepUnsplitMembers(all, s[..|s| - 1], o);
      assert s == s[..|s| - 1] + [s[|s| - 1]];
    }
  }

  lemma {:induction false} KeepUnsplitCount(all: seq<DhcpOption>, s: seq<DhcpOption>, t: Byte)
    ensures Count(KeepUnsplit(all, s), t) == if t != PAD && Count(all, t) == 1 then Count(s, t) else 0
  {
    if s != [] {
      var last := s[|s| - 1];
      KeepUnsplitCount(all, s[..|s| - 1], t);
      CountConcat(KeepUnsplit(all, s[..|s| - 1]), if Unsplit(all, last) then [last] else [], t);
    }
  }

  /** Every type kept before the End is kept once. */
  lemma {:induction false} WithoutSplitsCount(opts: seq<DhcpOption>, t: Byte)
    ensures t != END && t != PAD ==> Count(WithoutSplits(opts), t) <= 1
    ensures Count(WithoutSplits(opts), PAD) == 0
    ensures Count(WithoutSplits(opts), END) == if FirstEnd(opts) < |opts| then 1 else 0
  {
    var e := FirstEnd(opts);
    var tail := if e < |opts| then [opts[e]] else [];
    assert opts == opts[..e] + opts[e..];
    forall u: Byte
      ensures Count(WithoutSplits(opts), u) == Count(KeepUnsplit(opts, opts[..e]), u) + Count(tail, u)
    {
      CountConcat(KeepUnsplit(opts, opts[..e]), tail, u);
    }
    KeepUnsplitCount(opts, opts[..e], t);
    CountConcat(opts[..e], opts[e..], t);
    KeepUnsplitCount(opts, opts[..e], PAD);
    CountZero(opts[..e], END);
    KeepUnsplitCount(opts, opts[..e], END);
  }

  lemma {:induction false} WithoutSplitsClean(opts: seq<DhcpOption>)
    ensures Clean(WithoutSplits(opts))
  {
    var r := WithoutSplits(opts);
    forall k | 0 <= k < |r|
      ensures Unsplit(r, r[k])
    {
      WithoutSplitsCount(opts, r[k].typ);
      CountPositive(r, k);
    }
    forall k | 0 <= k < |r| - 1
      ensures r[k].typ != END
    {
      var kept := KeepUnsplit(opts, opts[..FirstEnd(opts)]);
      assert r[k] == kept[k] && kept[k] in kept;
      KeepUnsplitMembers(opts, opts[..FirstEnd(opts)], r[k]);
    }
  }

  lemma {:induction false} KeepUnsplitAll(all: seq<DhcpOption>, s: seq<DhcpOption>)
    requires forall k :: 0 <= k < |s| ==> Unsplit(all, s[k])
    ensures KeepUnsplit(all, s) == s
  {
    if s != [] {
      KeepUnsplitAll(all, s[..|s| - 1]);
    }
  }

  lemma {:induction false} CleanIsFixed(opts: seq<DhcpOption>)
    requires Clean(opts)
    ensures WithoutSplits(opts) == opts
  {
    hide Count, KeepUnsplit, FirstEnd;
    var e := FirstEnd(opts);
    KeepUnsplitAll(opts, opts[..e]);
    if e < |opts| {
      assert e == |opts| - 1;
      assert opts == opts[..e] + [opts[e]];
    }
  }

  /** The filter is idempotent, so a second relay on the path changes nothing. */
  lemma {:induction false} WithoutSplitsIdempotent(opts: seq<DhcpOption>)
    ensures WithoutSplits(WithoutSplits(opts)) == WithoutSplits(opts)
  {
    WithoutSplitsClean(opts);
    CleanIsFixed(WithoutSplits(opts));
  }

  /** How many of the first `k` options are kept. */
  ghost function KeptBefore(opts: seq<DhcpOption>, k: nat): nat
    requires k <= |opts|
  {
    if k == 0 then 0 else KeptBefore(opts, k - 1) + if Unsplit(opts, opts[k - 1]) then 1 else 0
  }

  lemma {:induction false} KeepUnsplitLength(opts: seq<DhcpOption>, e: nat)
    requires e <= |opts|
    ensures |KeepUnsplit(opts, opts[..e])| == KeptBefore(opts, e)
  {
    if e > 0 {
      KeepUnsplitStep(opts, e - 1);
      KeepUnsplitLength(opts, e - 1);
    }
  }

  lemma {:induction false} KeepUnsplitPosition(opts: seq<DhcpOption>, k: nat, e: nat)
    requires k < e <= |opts| && Unsplit(opts, opts[k])
    ensures KeptBefore(opts, k) < |KeepUnsplit(opts, opts[..e])|
    ensures KeepUnsplit(opts, opts[..e])[KeptBefore(opts, k)] == opts[k]
  {
    KeepUnsplitStep(opts, e - 1);
    if k < e - 1 {
      KeepUnsplitPosition(opts, k, e - 1);
    } else {
      KeepUnsplitLength(opts, k);
    }
  }

  /**
   * The filter, position by position: the option at `k` before the first End survives exactly when its type occurs
   * once in the whole list and it is not padding, and then it stands where the surviving options before it end.
   */
  lemma {:induction false} WithoutSplitsPosition(opts: seq<DhcpOption>, k: nat)
    requires k < FirstEnd(opts)
    ensures |WithoutSplits(opts)| == KeptBefore(opts, FirstEnd(opts)) + if FirstEnd(opts) < |opts| then 1 else 0
    ensures opts[k] in WithoutSplits(opts) <==> Unsplit(opts, opts[k])
    ensures Unsplit(opts, opts[k]) ==>
      KeptBefore(opts, k) < |WithoutSplits(opts)| && WithoutSplits(opts)[KeptBefore(opts, k)] == opts[k]
    ensures FirstEnd(opts) < |opts| ==> WithoutSplits(opts)[|WithoutSplits(opts)| - 1] == opts[FirstEnd(opts)]
  {
    var e := FirstEnd(opts);
    KeepUnsplitLength(opts, e);
    KeepUnsplitMembers(opts, opts[..e], opts[k]);
    assert opts[k] in opts[..e];
    if Unsplit(opts, opts[k]) {
      KeepUnsplitPosition(opts, k, e);
    }
  }

  // ----- Replacement, deletion and lookup -----

  function Without(opts: seq<DhcpOption>, t: Byte): (r: seq<DhcpOption>)
    ensures forall o :: o in r <==> o in opts && o.typ != t
  {
    if opts == [] then []
    else (if opts[0].typ == t then [] else [opts[0]]) + Without(opts[1..], t)
  }

  predicate Sorted(s: seq<DhcpOption>)
  {
    forall i, j :: 0 <= i < j < |s| ==> s[i].typ <= s[j].typ
  }

  /** What replacing an option promises, whichever way the unstable sort breaks ties. */
  ghost predicate IsSetOption(before: seq<DhcpOption>, o: DhcpOption, after: seq<DhcpOption>) {
    Sorted(after) && multiset(after) == multiset(Without(before, o.typ) + [o])
  }

  function InsertByType(o: DhcpOption, s: seq<DhcpOption>): (r: seq<DhcpOption>) {
    if s == [] || o.typ <= s[0].typ then [o] + s else [s[0]] + InsertByType(o, s[1..])
  }

  lemma {:induction false} InsertByTypePermutes(o: DhcpOption, s: seq<DhcpOption>)
    ensures multiset(InsertByType(o, s)) == multiset(s) + multiset{o}
    ensures forall e :: e in InsertByType(o, s) <==> e == o || e in s
  {
    if s != [] {
      assert s == [s[0]] + s[1..];
      InsertByTypePermutes(o, s[1..]);
    }
  }

  lemma {:induction false} InsertByTypeSorted(o: DhcpOption, s: seq<DhcpOption>)
    requires Sorted(s)
    ensures Sorted(InsertByType(o, s))
  {
    if s != [] && o.typ > s[0].typ {
      InsertByTypeSorted(o, s[1..]);
      InsertByTypePermutes(o, s[1..]);
      var r := InsertByType(o, s[1..]);
      forall e | e in r
        ensures s[0].typ <= e.typ
      {
        if e in s[1..] {
          var k :| 0 <= k < |s[1..]| && s[1..][k] == e;
        }
      }
    }
  }

  /** The library sort: a sorted permutation, and no promise about the order of equal types. */
  method SortByType(s: seq<DhcpOption>) returns (r: seq<DhcpOption>)
    ensures Sorted(r) && multiset(r) == multiset(s)
  {
    r := [];
    for k := 0 to |s|
      invariant Sorted(r) && multiset(r) == multiset(s[..k])
    {
      assert s[..k + 1] == s[..k] + [s[k]];
      InsertByTypePermutes(s[k], r);
      InsertByTypeSorted(s[k], r);
      r := InsertByType(s[k], r);
    }
    assert s[..|s|] == s;
  }

  lemma {:induction false} SetOptionMembers(before: seq<DhcpOption>, o: DhcpOption, after: seq<DhcpOption>)
    requires IsSetOption(before, o, after)
    ensures forall e :: e in after <==> e == o || (e in before && e.typ != o.typ)
  {
    forall e
      ensures e in after <==> e == o || (e in before && e.typ != o.typ)
    {
      assert e in after <==> e in multiset(after);
      assert e in Without(before, o.typ) + [o] <==> e in multiset(Without(before, o.typ) + [o]);
    }
  }

  lemma {:induction false} GetOnly(opts: seq<DhcpOption>, o: DhcpOption)
    requires o in opts
    requires forall e :: e in opts && e.typ == o.typ ==> e == o
    ensures GetOption(opts, o.typ) == o
  {
    if opts[0].typ != o.typ {
      GetOnly(opts[1..], o);
    }
  }

  /** After a replacement the new option is the one found under its type, even if fragments of it were there. */
  lemma {:induction false} SetOptionGet(before: seq<DhcpOption>, o: DhcpOption, after: seq<DhcpOption>)
    requires IsSetOption(before, o, after)
    ensures GetOption(after, o.typ) == o
    ensures Count(after, o.typ) == 1
  {
    SetOptionMembers(before, o, after);
    GetOnly(after, o);
    SetOptionCount(before, o, after, o.typ);
  }

  lemma {:induction false} WithoutCount(opts: seq<DhcpOption>, t: Byte, u: Byte)
    ensures Count(Without(opts, t), u) == if t == u then 0 else Count(opts, u)
  {
    if opts != [] {
      assert opts == [opts[0]] + opts[1..];
      CountConcat([opts[0]], opts[1..], u);
      CountConcat(if opts[0].typ == t then [] else [opts[0]], Without(opts[1..], t), u);
      WithoutCount(opts[1..], t, u);
    }
  }

  lemma {:induction false} SetOptionCount(before: seq<DhcpOption>, o: DhcpOption, after: seq<DhcpOption>, t: Byte)
    requires IsSetOption(before, o, after)
    ensures Count(after, t) == if t == o.typ then 1 else Count(before, t)
  {
    CountPermutation(after, Without(before, o.typ) + [o], t);
    CountConcat(Without(before, o.typ), [o], t);
    WithoutCount(before, o.typ, t);
  }

  /** On a filtered list the result is filtered again and its types strictly ascend. */
  lemma {:induction false} SetOptionClean(before: seq<DhcpOption>, o: DhcpOption, after: seq<DhcpOption>)
    requires Clean(before) && o.typ != PAD
    requires IsSetOption(before, o, after)
    ensures Clean(after)
    ensures forall i, j :: 0 <= i < j < |after| ==> after[i].typ < after[j].typ
  {
    SetOptionMembers(before, o, after);
    forall k | 0 <= k < |after|
      ensures Unsplit(after, after[k])
    {
      SetOptionCount(before, o, after, after[k].typ);
      assert after[k] in after;
      if after[k].typ != o.typ {
        var b :| 0 <= b < |before| && before[b] == after[k];
      }
    }
    forall i, j | 0 <= i < j < |after|
      ensures after[i].typ < after[j].typ
    {
      assert Unsplit(after, after[i]);
      if after[i].typ == after[j].typ {
        CountPair(after, i, j);
      }
    }
  }

  ghost predicate Ascending(s: seq<DhcpOption>) {
    forall i, j :: 0 <= i < j < |s| ==> s[i].typ < s[j].typ
  }

  lemma {:induction false} Tails(a: seq<DhcpOption>, b: seq<DhcpOption>)
    requires a != [] && b != [] && Ascending(a) && Sorted(b)
    ensures Ascending(a[1..]) && Sorted(b[1..])
  {
    assert forall i :: 0 <= i < |a| - 1 ==> a[1..][i] == a[i + 1];
    assert forall i :: 0 <= i < |b| - 1 ==> b[1..][i] == b[i + 1];
  }

  lemma {:induction false} SortedHeads(a: seq<DhcpOption>, b: seq<DhcpOption>)
    requires multiset(a) == multiset(b) && a != [] && b != [] && Sorted(b) && Ascending(a)
    ensures a[0] == b[0]
  {
    assert b[0] in multiset(b);
    assert b[0] in a;
    var i :| 0 <= i < |a| && a[i] == b[0];
    assert a[0] in multiset(a);
    assert a[0] in b;
    var j :| 0 <= j < |b| && b[j] == a[0];
  }

  lemma {:induction false} MultisetTail(s: seq<DhcpOption>)
    requires s != []
    ensures multiset(s[1..]) == multiset(s) - multiset{s[0]}
  {
    assert s == [s[0]] + s[1..];
  }

  /** A list whose types strictly ascend is the only sorted order of its options. */
  lemma {:induction false} SortedUnique(a: seq<DhcpOption>, b: seq<DhcpOption>)
    requires multiset(a) == multiset(b) && Sorted(b) && Ascending(a)
    ensures a == b
  {
    hide Ascending, Sorted;
    assert |multiset(a)| == |a| && |multiset(b)| == |b|;
    if a != [] {
      SortedHeads(a, b);
      MultisetTail(a);
      MultisetTail(b);
      Tails(a, b);
      SortedUnique(a[1..], b[1..]);
      assert a == [a[0]] + a[1..] && b == [b[0]] + b[1..];
    }
  }

  /** Lookup takes the first option of its type. */
  lemma {:induction false} GetOptionFirst(opts: seq<DhcpOption>, k: nat)
    requires k < |opts| && forall j :: 0 <= j < k ==> opts[j].typ != opts[k].typ
    ensures GetOption(opts, opts[k].typ) == opts[k]
  {
    if k > 0 {
      assert opts[0].typ != opts[k].typ;
      GetOptionFirst(opts[1..], k - 1);
    }
  }

  lemma {:induction false} CleanDistinct(opts: seq<DhcpOption>)
    requires Clean(opts)
    ensures forall i, j :: 0 <= i < j < |opts| ==> opts[i].typ != opts[j].typ
  {
    forall i, j | 0 <= i < j < |opts|
      ensures opts[i].typ != opts[j].typ
    {
      assert Unsplit(opts, opts[i]);
      if opts[i].typ == opts[j].typ {
        CountPair(opts, i, j);
      }
    }
  }

  /** Every other type looks up as before. */
  lemma {:induction false} SetOptionGetOther(before: seq<DhcpOption>, o: DhcpOption, after: seq<DhcpOption>, t: Byte)
    requires Clean(before) && o.typ != PAD && t != o.typ
    requires IsSetOption(before, o, after)
    ensures GetOption(after, t) == GetOption(before, t)
  {
    SetOptionMembers(before, o, after);
    SetOptionClean(before, o, after);
    CleanDistinct(before);
    if k :| 0 <= k < |before| && before[k].typ == t {
      GetOptionFirst(before, k);
      assert before[k] in after;
      var m :| 0 <= m < |after| && after[m] == before[k];
      GetOptionFirst(after, m);
    } else {
      assert forall e :: e in after ==> e.typ != t;
    }
  }

  lemma {:induction false} WithoutConcat(a: seq<DhcpOption>, b: seq<DhcpOption>, t: Byte)
    ensures Without(a + b, t) == Without(a, t) + Without(b, t)
  {
    if a == [] {
      assert a + b == b;
    } else {
      assert (a + b)[1..] == a[1..] + b;
      WithoutConcat(a[1..], b, t);
    }
  }

  lemma {:induction false} WithoutSize(opts: seq<DhcpOption>, t: Byte)
    ensures |Without(opts, t)| == |opts| - Count(opts, t)
  {
    if opts != [] {
      var front, last := opts[..|opts| - 1], [opts[|opts| - 1]];
      assert opts == front + last && last[1..] == [];
      WithoutConcat(front, last, t);
      WithoutSize(front, t);
    }
  }

  /** An option of another type moves up by as many places as there were options of type `t` before it. */
  lemma {:induction false} WithoutPosition(opts: seq<DhcpOption>, t: Byte, k: nat)
    requires k < |opts| && opts[k].typ != t
    ensures 0 <= k - Count(opts[..k], t) < |Without(opts, t)|
    ensures Without(opts, t)[k - Count(opts[..k], t)] == opts[k]
  {
    hide Count;
    assert opts == opts[..k] + opts[k..];
    WithoutConcat(opts[..k], opts[k..], t);
    WithoutSize(opts[..k], t);
  }

  /** What is left of a list without type `t`: as many as there were others, each in its place among them. */
  ghost predicate OthersInPlace(before: seq<DhcpOption>, t: Byte, after: seq<DhcpOption>) {
    && |after| == |before| - Count(before, t)
    && forall k :: 0 <= k < |before| && before[k].typ != t ==>
         var j := k - Count(before[..k], t); 0 <= j < |after| && after[j] == before[k]
  }

  lemma {:induction false} WithoutInPlace(opts: seq<DhcpOption>, t: Byte)
    ensures OthersInPlace(opts, t, Without(opts, t))
  {
    hide Count, Without;
    WithoutSize(opts, t);
    forall k | 0 <= k < |opts| && opts[k].typ != t
      ensures 0 <= k - Count(opts[..k], t) < |Without(opts, t)|
      ensures Without(opts, t)[k - Count(opts[..k], t)] == opts[k]
    {
      WithoutPosition(opts, t, k);
    }
  }

  lemma {:induction false} WithoutAbsent(opts: seq<DhcpOption>, t: Byte)
    requires forall o :: o in opts ==> o.typ != t
    ensures Without(opts, t) == opts
  {
    if opts != [] {
      assert opts[0] in opts;
      WithoutAbsent(opts[1..], t);
    }
  }

  lemma {:induction false} WithoutKeepsOrder(opts: seq<DhcpOption>, t: Byte)
    requires forall i, j :: 0 <= i < j < |opts| ==> opts[i].typ < opts[j].typ
    ensures forall i, j :: 0 <= i < j < |Without(opts, t)| ==> Without(opts, t)[i].typ < Without(opts, t)[j].typ
  {
    if opts != [] {
      WithoutKeepsOrder(opts[1..], t);
      var tail := Without(opts[1..], t);
      forall k | 0 <= k < |tail|
        ensures opts[0].typ < tail[k].typ
      {
        assert tail[k] in opts[1..];
        var m :| 0 <= m < |opts[1..]| && opts[1..][m] == tail[k];
      }
    }
  }

  lemma {:induction false} WithoutMultiset(opts: seq<DhcpOption>, t: Byte, o: DhcpOption)
    ensures multiset(Without(opts, t))[o] == if o.typ == t then 0 else multiset(opts)[o]
  {
    if opts != [] {
      WithoutMultiset(opts[1..], t, o);
      assert opts == [opts[0]] + opts[1..];
    }
  }

  /** Deleting an option undoes setting it: on a filtered, sorted list that lacked it, the list comes back. */
  lemma {:induction false} DeleteUndoesSet(before: seq<DhcpOption>, o: DhcpOption, after: seq<DhcpOption>)
    requires Clean(before) && Sorted(before) && o.typ != PAD && forall e :: e in before ==> e.typ != o.typ
    requires IsSetOption(before, o, after)
    ensures Without(after, o.typ) == before
  {
    hide Clean;
    SetOptionClean(before, o, after);
    WithoutKeepsOrder(after, o.typ);
    WithoutAbsent(before, o.typ);
    forall e: DhcpOption
      ensures multiset(Without(after, o.typ))[e] == multiset(before)[e]
    {
      WithoutMultiset(after, o.typ, e);
      WithoutMultiset(before, o.typ, e);
    }
    SortedUnique(Without(after, o.typ), before);
  }

  /** The result of filtering and then replacing is one determined list, although the sort is not stable. */
  lemma {:induction false} SetOptionDetermined(
    opts: seq<DhcpOption>, o: DhcpOption, a: seq<DhcpOption>, b: seq<DhcpOption>)
    requires o.typ != PAD
    requires IsSetOption(WithoutSplits(opts), o, a) && IsSetOption(WithoutSplits(opts), o, b)
    ensures a == b
    ensures Clean(a) && WithoutSplits(a) == a
    ensures GetOption(a, o.typ) == o
    ensures forall t: Byte :: t != o.typ ==> GetOption(a, t) == GetOption(WithoutSplits(opts), t)
  {
    var before := WithoutSplits(opts);
    WithoutSplitsClean(opts);
    SetOptionClean(before, o, a);
    SortedUnique(a, b);
    CleanIsFixed(a);
    SetOptionGet(before, o, a);
    forall t: Byte | t != o.typ
      ensures GetOption(a, t) == GetOption(before, t)
    {
      SetOptionGetOther(before, o, a, t);
    }
  }
}
