/** The slot catalog: from an availability snapshot to the ordered list of courts that can be
    claimed for one time slot. The filter keeps the entries for the requested slot that are not
    locked; the sort orders them by court name, descending, and stably. */
module Catalog {
  import opened JsonValues
  import opened TextOrder

  /** One court's record in `data.openSlice`; each field may be missing. */
  datatype SliceInfo = SliceInfo(sliceName: Option<string>, sliceTime: Option<string>, isLock: Option<Scalar>)

  /** A key/value pair of `openSlice`, in the dictionary's iteration order. */
  datatype Entry = Entry(courtId: string, info: SliceInfo)

  datatype CourtsData = CourtsData(openSlice: Option<seq<Entry>>)

  /** The result of the availability query: either an `error` or the decoded payload. */
  datatype CourtsResponse = CourtsResponse(error: Option<string>, data: Option<CourtsData>)

  datatype Candidate = Candidate(courtId: string, courtName: string)

  /** An entry is a candidate when its slot label is exactly the requested one and its lock flag
      is not 1 (a missing or null flag counts as unlocked; a missing slot label never matches). */
  predicate Qualifies(info: SliceInfo, timeSlot: string) {
    info.sliceTime == Some(timeSlot) && !EqualsOne(info.isLock)
  }

  /** A missing `slice_name` reads as the empty name. */
  function NameOf(info: SliceInfo): (r: string) {
    match info.sliceName
    case Some(n) => n
    case None => ""
  }

  function ToCandidate(e: Entry): (r: Candidate) {
    Candidate(e.courtId, NameOf(e.info))
  }

  /** The qualifying entries as candidates, in snapshot order. */
  function Qualifying(entries: seq<Entry>, timeSlot: string): (r: seq<Candidate>) {
    if entries == [] then []
    else
      var e := entries[|entries| - 1];
      Qualifying(entries[..|entries| - 1], timeSlot) + (if Qualifies(e.info, timeSlot) then [ToCandidate(e)] else [])
  }

  function Ids(cs: seq<Candidate>): (r: seq<string>) {
    if cs == [] then [] else Ids(cs[..|cs| - 1]) + [cs[|cs| - 1].courtId]
  }

  /** Dictionary keys are distinct. */
  predicate KeysUnique(entries: seq<Entry>) {
    forall i, j :: 0 <= i < j < |entries| ==> entries[i].courtId != entries[j].courtId
  }

  // ---------------------------------------------------------------------------------------
  // Properties of the filter

  /** Every candidate comes from an entry for the requested slot whose lock flag is not 1,
      and carries that entry's id and name. */
  lemma {:induction false} QualifyingSound(entries: seq<Entry>, timeSlot: string, c: Candidate)
    requires c in Qualifying(entries, timeSlot)
    ensures exists i :: 0 <= i < |entries| && Qualifies(entries[i].info, timeSlot) && ToCandidate(entries[i]) == c
  {
    var n := |entries|;
    var init := entries[..n - 1];
    if c in Qualifying(init, timeSlot) {
      QualifyingSound(init, timeSlot, c);
      var i :| 0 <= i < |init| && Qualifies(init[i].info, timeSlot) && ToCandidate(init[i]) == c;
      assert entries[i] == init[i];
    } else {
      assert Qualifies(entries[n - 1].info, timeSlot) && ToCandidate(entries[n - 1]) == c;
    }
  }

  lemma {:induction false} IdsMember(cs: seq<Candidate>, id: string)
    requires id in Ids(cs)
    ensures exists c :: c in cs && c.courtId == id
  {
    var n := |cs|;
    if id in Ids(cs[..n - 1]) {
      IdsMember(cs[..n - 1], id);
      var c :| c in cs[..n - 1] && c.courtId == id;
      assert c in cs;
    } else {
      assert cs[n - 1] in cs;
    }
  }

  lemma IdsSnoc(cs: seq<Candidate>, c: Candidate)
    ensures Ids(cs + [c]) == Ids(cs) + [c.courtId]
  {
    assert (cs + [c])[..|cs|] == cs;
  }

  /** The filter takes the last entry or not, after filtering the ones before it. */
  lemma QualifyingSnocIds(entries: seq<Entry>, timeSlot: string)
    requires entries != []
    ensures var last := entries[|entries| - 1];
      Ids(Qualifying(entries, timeSlot))
      == Ids(Qualifying(entries[..|entries| - 1], timeSlot)) + (if Qualifies(last.info, timeSlot) then [last.courtId] else [])
  {
    var last := entries[|entries| - 1];
    if Qualifies(last.info, timeSlot) {
      IdsSnoc(Qualifying(entries[..|entries| - 1], timeSlot), ToCandidate(last));
    } else {
      assert Qualifying(entries, timeSlot) == Qualifying(entries[..|entries| - 1], timeSlot);
    }
  }

  /** An id that no entry carries is not among the candidates. */
  lemma IdAbsent(entries: seq<Entry>, timeSlot: string, id: string)
    requires forall j :: 0 <= j < |entries| ==> entries[j].courtId != id
    ensures id !in Ids(Qualifying(entries, timeSlot))
  {
    if id in Ids(Qualifying(entries, timeSlot)) {
      IdsMember(Qualifying(entries, timeSlot), id);
      var c :| c in Qualifying(entries, timeSlot) && c.courtId == id;
      QualifyingSound(entries, timeSlot, c);
    }
  }

  /** With distinct keys, the id of every qualifying entry occurs exactly once among the
      candidates: nothing is dropped and nothing is duplicated. */
  lemma {:induction false} QualifyingOnce(entries: seq<Entry>, timeSlot: string, i: nat)
    requires KeysUnique(entries)
    requires i < |entries| && Qualifies(entries[i].info, timeSlot)
    ensures multiset(Ids(Qualifying(entries, timeSlot)))[entries[i].courtId] == 1
  {
    var n := |entries|;
    var init := entries[..n - 1];
    var id := entries[i].courtId;
    QualifyingSnocIds(entries, timeSlot);
    if i == n - 1 {
      forall j | 0 <= j < |init|
        ensures init[j].courtId != id
      {
        assert init[j] == entries[j];
      }
      IdAbsent(init, timeSlot, id);
    } else {
      assert init[i] == entries[i];
      assert KeysUnique(init);
      QualifyingOnce(init, timeSlot, i);
    }
  }

  // ---------------------------------------------------------------------------------------
  // The stable descending sort by court name

  /** Inserts `x` after every element whose name is not below `x`'s name. Applied to the
      sorted prefix, this is one step of a stable sort with `reverse=True`. */
  function Insert(x: Candidate, s: seq<Candidate>): (r: seq<Candidate>) {
    if s == [] then [x]
    else
      var last := s[|s| - 1];
      if Less(last.courtName, x.courtName) then Insert(x, s[..|s| - 1]) + [last]
      else s + [x]
  }

  /** Insertion sort by name, descending, stable; the specification of `list.sort(key=name,
      reverse=True)`. */
  function SortDesc(s: seq<Candidate>): (r: seq<Candidate>) {
    if s == [] then []
    else Insert(s[|s| - 1], SortDesc(s[..|s| - 1]))
  }

  /** Names never increase along the sequence. */
  predicate SortedDesc(s: seq<Candidate>) {
    forall i, j :: 0 <= i < j < |s| ==> LessEq(s[j].courtName, s[i].courtName)
  }

  /** The candidates with one given name, in their order. */
  function WithName(s: seq<Candidate>, name: string): (r: seq<Candidate>) {
    if s == [] then []
    else WithName(s[..|s| - 1], name) + (if s[|s| - 1].courtName == name then [s[|s| - 1]] else [])
  }

  /** `r` is what a stable sort by name, descending, makes of `s`: names do not increase, and
      candidates that share a name keep the order they had in `s`. */
  ghost predicate IsStableDescSortOf(r: seq<Candidate>, s: seq<Candidate>) {
    SortedDesc(r) && forall name :: WithName(r, name) == WithName(s, name)
  }

  /** Inserting adds exactly `x`. */
  lemma {:induction false} InsertPermutes(x: Candidate, s: seq<Candidate>)
    ensures multiset(Insert(x, s)) == multiset(s) + multiset{x}
  {
    if s != [] {
      var last := s[|s| - 1];
      assert s == s[..|s| - 1] + [last];
      if Less(last.courtName, x.courtName) {
        InsertPermutes(x, s[..|s| - 1]);
      }
    }
  }

  /** The sort is a permutation of its input. */
  lemma {:induction false} SortDescPermutes(s: seq<Candidate>)
    ensures multiset(SortDesc(s)) == multiset(s)
  {
    if s != [] {
      var init, last := s[..|s| - 1], s[|s| - 1];
      var sorted := SortDesc(init);
      SortDescPermutes(init);
      InsertPermutes(last, sorted);
      assert SortDesc(s) == Insert(last, sorted);
      MultisetSnoc(s);
    }
  }

  lemma MultisetSnoc(s: seq<Candidate>)
    requires s != []
    ensures multiset(s) == multiset(s[..|s| - 1]) + multiset{s[|s| - 1]}
  {
    assert s == s[..|s| - 1] + [s[|s| - 1]];
  }

  lemma {:induction false} InsertSorted(x: Candidate, s: seq<Candidate>)
    requires SortedDesc(s)
    ensures SortedDesc(Insert(x, s))
  {
    if s != [] {
      var last := s[|s| - 1];
      var init := s[..|s| - 1];
      if Less(last.courtName, x.courtName) {
        InsertSorted(x, init);
        var ins := Insert(x, init);
        InsertPermutes(x, init);
        var r := ins + [last];
        forall i, j | 0 <= i < j < |r|
          ensures LessEq(r[j].courtName, r[i].courtName)
        {
          if j == |r| - 1 {
            assert r[i] in multiset(init) + multiset{x} by {
              assert r[i] in multiset(ins);
            }
            if r[i] == x {
              LessAsymmetric(last.courtName, x.courtName);
            } else {
              var k :| 0 <= k < |init| && init[k] == r[i];
              assert s[k] == r[i];
            }
          }
        }
      } else {
        var r := s + [x];
        forall i, j | 0 <= i < j < |r|
          ensures LessEq(r[j].courtName, r[i].courtName)
        {
          if j == |r| - 1 && i < |s| - 1 {
            LessEqTransitive(x.courtName, last.courtName, s[i].courtName);
          }
        }
      }
    }
  }

  lemma {:induction false} SortDescSorted(s: seq<Candidate>)
    ensures SortedDesc(SortDesc(s))
  {
    if s != [] {
      SortDescSorted(s[..|s| - 1]);
      InsertSorted(s[|s| - 1], SortDesc(s[..|s| - 1]));
    }
  }

  lemma WithNameSnoc(s: seq<Candidate>, c: Candidate, name: string)
    ensures WithName(s + [c], name) == WithName(s, name) + (if c.courtName == name then [c] else [])
  {
    assert (s + [c])[..|s|] == s;
  }

  /** Inserting `x` extends the run of `x`'s name at its end and leaves the other runs alone. */
  lemma {:induction false} InsertWithName(x: Candidate, s: seq<Candidate>, name: string)
    ensures WithName(Insert(x, s), name) == WithName(s, name) + (if x.courtName == name then [x] else [])
  {
    if s == [] {
      WithNameSnoc([], x, name);
    } else {
      var last := s[|s| - 1];
      var init := s[..|s| - 1];
      assert s == init + [last];
      if Less(last.courtName, x.courtName) {
        var ins := Insert(x, init);
        assert Insert(x, s) == ins + [last];
        InsertWithName(x, init, name);
        WithNameSnoc(ins, last, name);
        WithNameSnoc(init, last, name);
        if x.courtName == name && last.courtName == name {
          LessIrreflexive(name);
        }
      } else {
        assert Insert(x, s) == s + [x];
        WithNameSnoc(s, x, name);
      }
    }
  }

  lemma {:induction false} SortDescWithName(s: seq<Candidate>, name: string)
    ensures WithName(SortDesc(s), name) == WithName(s, name)
  {
    if s != [] {
      SortDescWithName(s[..|s| - 1], name);
      InsertWithName(s[|s| - 1], SortDesc(s[..|s| - 1]), name);
    }
  }

  /** The sort is a permutation that orders names descending and keeps equal names in their
      original order. */
  lemma SortDescIsStableDescSort(s: seq<Candidate>)
    ensures IsStableDescSortOf(SortDesc(s), s)
    ensures multiset(SortDesc(s)) == multiset(s)
  {
    SortDescSorted(s);
    SortDescPermutes(s);
    forall name
      ensures WithName(SortDesc(s), name) == WithName(s, name)
    {
      SortDescWithName(s, name);
    }
  }

  lemma {:induction false} WithNameMember(s: seq<Candidate>, c: Candidate, name: string)
    ensures c in WithName(s, name) <==> c in s && c.courtName == name
  {
    if s != [] {
      WithNameMember(s[..|s| - 1], c, name);
      assert s == s[..|s| - 1] + [s[|s| - 1]];
    }
  }

  /** A sorted sequence has its smallest name last. */
  lemma LastIsLeast(s: seq<Candidate>, c: Candidate)
    requires SortedDesc(s) && c in s
    ensures LessEq(s[|s| - 1].courtName, c.courtName)
  {
    var k :| 0 <= k < |s| && s[k] == c;
    if k == |s| - 1 {
      LessIrreflexive(c.courtName);
    }
  }

  /** There is only one stable descending order: any sequence that is sorted by name,
      descending, and keeps each name's candidates in their order in `s`, is `SortDesc(s)`.
      So the insertion sort stands for any stable sort, Python's included. */
  lemma StableDescSortUnique(r: seq<Candidate>, s: seq<Candidate>)
    requires IsStableDescSortOf(r, s)
    ensures r == SortDesc(s)
  {
    SortDescIsStableDescSort(s);
    SameRunsSame(r, SortDesc(s));
  }

  /** Sequences with the same runs of names are empty together. */
  lemma SameRunsEmpty(a: seq<Candidate>, b: seq<Candidate>)
    requires forall name :: WithName(a, name) == WithName(b, name)
    requires a == []
    ensures b == []
  {
    if b != [] {
      WithNameMember(a, b[0], b[0].courtName);
      WithNameMember(b, b[0], b[0].courtName);
      assert false;
    }
  }

  /** Sorted sequences that hold each other's last candidate, by name, end on the same name. */
  lemma SameLastName(a: seq<Candidate>, b: seq<Candidate>)
    requires SortedDesc(a) && SortedDesc(b) && a != [] && b != []
    requires WithName(a, a[|a| - 1].courtName) == WithName(b, a[|a| - 1].courtName)
    requires WithName(a, b[|b| - 1].courtName) == WithName(b, b[|b| - 1].courtName)
    ensures a[|a| - 1].courtName == b[|b| - 1].courtName
  {
    var x, y := a[|a| - 1], b[|b| - 1];
    WithNameMember(a, x, x.courtName);
    WithNameMember(b, x, x.courtName);
    WithNameMember(a, y, y.courtName);
    WithNameMember(b, y, y.courtName);
    LastIsLeast(b, x);
    LastIsLeast(a, y);
    LessEqAntisymmetric(x.courtName, y.courtName);
  }

  /** Sequences whose last candidates share a name, with equal runs of that name, end alike. */
  lemma SameRunSameLast(a: seq<Candidate>, b: seq<Candidate>)
    requires a != [] && b != [] && a[|a| - 1].courtName == b[|b| - 1].courtName
    requires WithName(a, a[|a| - 1].courtName) == WithName(b, a[|a| - 1].courtName)
    ensures a[|a| - 1] == b[|b| - 1]
  {
    var x, y := a[|a| - 1], b[|b| - 1];
    var m := x.courtName;
    var wa, wb := WithName(a, m), WithName(b, m);
    assert wa == WithName(a[..|a| - 1], m) + [x];
    assert wb == WithName(b[..|b| - 1], m) + [y];
    assert wa[|wa| - 1] == x && wb[|wb| - 1] == y;
  }

  /** Sorted sequences with the same runs of names end with the same candidate. */
  lemma SameRunsSameLast(a: seq<Candidate>, b: seq<Candidate>)
    requires SortedDesc(a) && SortedDesc(b) && a != [] && b != []
    requires WithName(a, a[|a| - 1].courtName) == WithName(b, a[|a| - 1].courtName)
    requires WithName(a, b[|b| - 1].courtName) == WithName(b, b[|b| - 1].courtName)
    ensures a[|a| - 1] == b[|b| - 1]
  {
    SameLastName(a, b);
    SameRunSameLast(a, b);
  }

  /** Removing one common last candidate keeps the runs equal. */
  lemma SameRunsDropLast(a: seq<Candidate>, b: seq<Candidate>, x: Candidate, name: string)
    requires WithName(a + [x], name) == WithName(b + [x], name)
    ensures WithName(a, name) == WithName(b, name)
  {
    WithNameSnoc(a, x, name);
    WithNameSnoc(b, x, name);
    var t := if x.courtName == name then [x] else [];
    var wa, wb := WithName(a + [x], name), WithName(b + [x], name);
    assert WithName(a, name) == wa[..|wa| - |t|];
    assert WithName(b, name) == wb[..|wb| - |t|];
  }

  lemma {:induction false} SameRunsSame(a: seq<Candidate>, b: seq<Candidate>)
    requires SortedDesc(a) && SortedDesc(b)
    requires forall name :: WithName(a, name) == WithName(b, name)
    ensures a == b
    decreases |a| + |b|
  {
    if a == [] {
      SameRunsEmpty(a, b);
    } else if b == [] {
      SameRunsEmpty(b, a);
    } else {
      assert WithName(a, a[|a| - 1].courtName) == WithName(b, a[|a| - 1].courtName);
      assert WithName(a, b[|b| - 1].courtName) == WithName(b, b[|b| - 1].courtName);
      SameRunsSameLast(a, b);
      var x := a[|a| - 1];
      var a', b' := a[..|a| - 1], b[..|b| - 1];
      assert a == a' + [x] && b == b' + [x];
      forall name
        ensures WithName(a', name) == WithName(b', name)
      {
        SameRunsDropLast(a', b', x, name);
      }
      assert SortedDesc(a') && SortedDesc(b');
      SameRunsSame(a', b');
    }
  }

  /** One step of the inner loop: `x` moves left past a smaller name. */
  lemma InsertPast(x: Candidate, s: seq<Candidate>, j: nat)
    requires 0 < j <= |s| && Less(s[j - 1].courtName, x.courtName)
    requires Insert(x, s) == Insert(x, s[..j]) + s[j..]
    ensures Insert(x, s) == Insert(x, s[..j - 1]) + s[j - 1..]
  {
    assert s[..j][..j - 1] == s[..j - 1];
    assert s[j - 1..] == [s[j - 1]] + s[j..];
  }

  /** Where the inner loop stops, `x` goes right after the prefix. */
  lemma InsertStop(x: Candidate, s: seq<Candidate>, j: nat)
    requires j <= |s| && (j == 0 || !Less(s[j - 1].courtName, x.courtName))
    ensures Insert(x, s[..j]) == s[..j] + [x]
  {
  }

  lemma SortDescSnoc(s: seq<Candidate>, i: nat)
    requires i < |s|
    ensures SortDesc(s[..i + 1]) == Insert(s[i], SortDesc(s[..i]))
  {
    assert s[..i + 1][..i] == s[..i];
  }

  /** After the inner loop the first `i + 1` cells hold the prefix with `x` placed at `j`. */
  lemma Placed(t: seq<Candidate>, s: seq<Candidate>, x: Candidate, j: nat, i: nat)
    requires |s| == i && j <= i < |t| && t[j] == x
    requires forall k :: 0 <= k < j ==> t[k] == s[k]
    requires forall k :: j < k <= i ==> t[k] == s[k - 1]
    ensures t[..i + 1] == s[..j] + [x] + s[j..i]
  {
  }

  /** Where the inner loop stops, the cells up to `i` hold the insertion of `x` into `s`. */
  lemma PlacedInsert(t: seq<Candidate>, s: seq<Candidate>, x: Candidate, j: nat, i: nat)
    requires |s| == i && j <= i < |t| && t[j] == x
    requires forall k :: 0 <= k < j ==> t[k] == s[k]
    requires forall k :: j < k <= i ==> t[k] == s[k - 1]
    requires j == 0 || !Less(s[j - 1].courtName, x.courtName)
    requires Insert(x, s) == Insert(x, s[..j]) + s[j..]
    ensures t[..i + 1] == Insert(x, s)
  {
    InsertStop(x, s, j);
    Placed(t, s, x, j, i);
    assert s[j..i] == s[j..];
  }

  /** The state of the inner loop over the cells `t`: `x` is being inserted into the sorted
      prefix `s`, whose cells from `j` on have moved one place right; the cells after `i` hold
      `rest`. */
  ghost predicate Shifting(t: seq<Candidate>, s: seq<Candidate>, rest: seq<Candidate>, x: Candidate, i: nat, j: nat) {
    && |s| == i && j <= i < |t| && t[i + 1..] == rest
    && (forall k :: 0 <= k < j ==> t[k] == s[k])
    && (forall k :: j < k <= i ==> t[k] == s[k - 1])
    && Insert(x, s) == Insert(x, s[..j]) + s[j..]
  }

  /** Moving the cell at `j - 1` one place right keeps the loop state. */
  lemma ShiftStep(t: seq<Candidate>, s: seq<Candidate>, rest: seq<Candidate>, x: Candidate, i: nat, j: nat)
    requires Shifting(t, s, rest, x, i, j) && 0 < j && Less(t[j - 1].courtName, x.courtName)
    ensures Shifting(t[j := t[j - 1]], s, rest, x, i, j - 1)
  {
    InsertPast(x, s, j);
    var t' := t[j := t[j - 1]];
    assert t'[i + 1..] == t[i + 1..];
  }

  /** Before the inner loop nothing has moved. */
  lemma ShiftStart(t: seq<Candidate>, i: nat)
    requires i < |t|
    ensures Shifting(t, t[..i], t[i + 1..], t[i], i, i)
  {
    var s := t[..i];
    assert s[..i] == s && s[i..] == [];
  }

  /** Where the inner loop stops, writing `x` into the gap completes the insertion. */
  lemma ShiftStop(t: seq<Candidate>, s: seq<Candidate>, rest: seq<Candidate>, x: Candidate, i: nat, j: nat)
    requires Shifting(t, s, rest, x, i, j) && (j == 0 || !Less(t[j - 1].courtName, x.courtName))
    ensures t[j := x][..i + 1] == Insert(x, s) && t[j := x][i + 1..] == rest
  {
    var t' := t[j := x];
    PlacedInsert(t', s, x, j, i);
    assert t'[i + 1..] == t[i + 1..];
  }

  /** One pass of the insertion sort: the cell at `i` moves left past every name below its own,
      into the sorted prefix before it. */
  method InsertIntoPrefix(a: array<Candidate>, i: nat)
    requires i < a.Length
    modifies a
    ensures a[..i + 1] == Insert(old(a[i]), old(a[..i]))
    ensures a[i + 1..] == old(a[i + 1..])
  {
    var x := a[i];
    ghost var s, rest := a[..i], a[i + 1..];
    var j := i;
    ShiftStart(a[..], i);
    while j > 0 && Less(a[j - 1].courtName, x.courtName)
      invariant Shifting(a[..], s, rest, x, i, j)
    {
      ShiftStep(a[..], s, rest, x, i, j);
      a[j] := a[j - 1];
      j := j - 1;
    }
    ShiftStop(a[..], s, rest, x, i, j);
    a[j] := x;
    assert a[..i + 1] == a[..][..i + 1];
  }

  /** `list.sort(key=lambda x: x["court_name"], reverse=True)` on a list of candidates, in place,
      as an insertion sort. */
  method SortByNameDescending(a: array<Candidate>)
    modifies a
    ensures a[..] == SortDesc(old(a[..]))
  {
    ghost var orig := a[..];
    var i := 0;
    while i < a.Length
      invariant 0 <= i <= a.Length
      invariant a[..i] == SortDesc(orig[..i])
      invariant a[i..] == orig[i..]
    {
      SortDescSnoc(orig, i);
      assert a[i] == orig[i];
      InsertIntoPrefix(a, i);
      i := i + 1;
    }
    assert a[..] == a[..a.Length] && orig == orig[..a.Length];
  }

  /** `find_available_courts_by_time` as a specification: no candidates when `data` or
      `data.openSlice` is missing, otherwise the qualifying entries sorted by name, descending. */
  function ResolveCandidates(resp: CourtsResponse, timeSlot: string): (r: seq<Candidate>) {
    match resp.data
    case None => []
    case Some(d) =>
      match d.openSlice
      case None => []
      case Some(entries) => SortDesc(Qualifying(entries, timeSlot))
  }

  lemma {:induction false} IdsAppend(a: seq<Candidate>, b: seq<Candidate>)
    ensures Ids(a + b) == Ids(a) + Ids(b)
    decreases |b|
  {
    if b == [] {
      assert a + b == a;
    } else {
      var b', y := b[..|b| - 1], b[|b| - 1];
      assert a + b == (a + b') + [y] && b == b' + [y];
      IdsSnoc(a + b', y);
      IdsSnoc(b', y);
      IdsAppend(a, b');
    }
  }

  /** Taking a candidate out of a sequence takes its id out of the ids. */
  lemma IdsRemove(p: seq<Candidate>, c: Candidate, q: seq<Candidate>)
    ensures multiset(Ids(p + [c] + q)) == multiset(Ids(p + q)) + multiset{c.courtId}
  {
    IdsAppend(p + [c], q);
    IdsSnoc(p, c);
    IdsAppend(p, q);
    var ip, iq := Ids(p), Ids(q);
    assert multiset(ip + [c.courtId] + iq) == multiset(ip) + multiset{c.courtId} + multiset(iq);
  }

  lemma SplitAt(b: seq<Candidate>, j: nat)
    requires j < |b|
    ensures b == b[..j] + [b[j]] + b[j + 1..]
  {
  }

  lemma RemoveAtMultiset(b: seq<Candidate>, j: nat)
    requires j < |b|
    ensures multiset(b[..j] + b[j + 1..]) == multiset(b) - multiset{b[j]}
  {
    SplitAt(b, j);
  }

  /** Reordering candidates reorders their ids alike. */
  lemma {:induction false} IdsPermutation(a: seq<Candidate>, b: seq<Candidate>)
    requires multiset(a) == multiset(b)
    ensures multiset(Ids(a)) == multiset(Ids(b))
    decreases |a|
  {
    if a == [] {
      assert |b| == |multiset(b)| == 0;
    } else {
      var a', x := a[..|a| - 1], a[|a| - 1];
      assert a == a' + [x];
      assert multiset(a') == multiset(a) - multiset{x};
      assert x in multiset(b);
      var j :| 0 <= j < |b| && b[j] == x;
      RemoveAtMultiset(b, j);
      IdsPermutation(a', b[..j] + b[j + 1..]);
      IdsSnoc(a', x);
      SplitAt(b, j);
      IdsRemove(b[..j], x, b[j + 1..]);
    }
  }

  /** What the candidate list promises: names do not increase, equal names keep their snapshot
      order, and the list is a reordering of the qualifying entries. */
  lemma ResolveCandidatesCorrect(entries: seq<Entry>, timeSlot: string)
    ensures var r := SortDesc(Qualifying(entries, timeSlot));
      && multiset(r) == multiset(Qualifying(entries, timeSlot))
      && IsStableDescSortOf(r, Qualifying(entries, timeSlot))
  {
    SortDescIsStableDescSort(Qualifying(entries, timeSlot));
  }

  /** Every returned candidate comes from an entry for the requested slot whose lock flag is
      not 1, with that entry's id and name. */
  lemma ResolveCandidatesSound(entries: seq<Entry>, timeSlot: string, c: Candidate)
    requires c in SortDesc(Qualifying(entries, timeSlot))
    ensures exists i :: 0 <= i < |entries| && Qualifies(entries[i].info, timeSlot) && ToCandidate(entries[i]) == c
  {
    SortDescPermutes(Qualifying(entries, timeSlot));
    assert c in multiset(SortDesc(Qualifying(entries, timeSlot)));
    QualifyingSound(entries, timeSlot, c);
  }

  /** With distinct keys, every qualifying entry's court id occurs exactly once in the returned
      list. */
  lemma ResolveCandidatesOnce(entries: seq<Entry>, timeSlot: string, i: nat)
    requires KeysUnique(entries)
    requires i < |entries| && Qualifies(entries[i].info, timeSlot)
    ensures multiset(Ids(SortDesc(Qualifying(entries, timeSlot))))[entries[i].courtId] == 1
  {
    QualifyingOnce(entries, timeSlot, i);
    SortDescPermutes(Qualifying(entries, timeSlot));
    IdsPermutation(SortDesc(Qualifying(entries, timeSlot)), Qualifying(entries, timeSlot));
  }

  /** Two open courts for "16:30--18:30", "Court West" (A1) and "Court East" (A2): under code
      point order "Court West" is the larger name, so A1 is tried first. */
  lemma WestBeforeEast()
    ensures
      var west := Entry("A1", SliceInfo(Some("Court West"), Some("16:30--18:30"), Some(Int(0))));
      var east := Entry("A2", SliceInfo(Some("Court East"), Some("16:30--18:30"), Some(Int(0))));
      ResolveCandidates(CourtsResponse(None, Some(CourtsData(Some([west, east])))), "16:30--18:30")
      == [Candidate("A1", "Court West"), Candidate("A2", "Court East")]
  {
    var west := Entry("A1", SliceInfo(Some("Court West"), Some("16:30--18:30"), Some(Int(0))));
    var east := Entry("A2", SliceInfo(Some("Court East"), Some("16:30--18:30"), Some(Int(0))));
    EastBelowWest();
    ResolveTwo(west, east, "16:30--18:30");
  }

  /** Two qualifying entries, the first with the name that is not below the second's, come
      out in snapshot order. */
  lemma ResolveTwo(x: Entry, y: Entry, timeSlot: string)
    requires Qualifies(x.info, timeSlot) && Qualifies(y.info, timeSlot)
    requires !Less(NameOf(x.info), NameOf(y.info))
    ensures ResolveCandidates(CourtsResponse(None, Some(CourtsData(Some([x, y])))), timeSlot)
            == [ToCandidate(x), ToCandidate(y)]
  {
    TwoOpenCourts(x, y, timeSlot);
    SortTwo(ToCandidate(x), ToCandidate(y));
  }

  lemma TwoOpenCourts(x: Entry, y: Entry, timeSlot: string)
    requires Qualifies(x.info, timeSlot) && Qualifies(y.info, timeSlot)
    ensures Qualifying([x, y], timeSlot) == [ToCandidate(x), ToCandidate(y)]
  {
    assert [x][..0] == [];
    assert Qualifying([x], timeSlot) == [ToCandidate(x)];
    assert [x, y][..1] == [x];
  }

  lemma SortTwo(x: Candidate, y: Candidate)
    requires !Less(x.courtName, y.courtName)
    ensures SortDesc([x, y]) == [x, y]
  {
    assert [x][..0] == [] && [x, y][..1] == [x];
    assert SortDesc([x]) == [x];
  }

  lemma EastBelowWest()
    ensures !Less("Court West", "Court East")
  {
    var east, west := "Court East", "Court West";
    assert east[..6] == west[..6] && east[6] == 'E' < 'W' == west[6];
    LessAtFirstDifference(east, west, 6);
    LessAsymmetric(east, west);
  }
}
