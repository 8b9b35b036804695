/**
 The order in which the functions of a request's handlers run, stated on the calls themselves: each function of each
 handler once, in its place, and whatever a function puts in front directly behind it.
 */
module HttpOrder {
  import opened CText
  import opened HttpServer
  import R = ReqPattern

  // ----- filters

  ghost function Keep(t: seq<Func>, p: Func -> bool): seq<Func> {
    if t == [] then [] else (if p(t[0]) then [t[0]] else []) + Keep(t[1..], p)
  }

  lemma {:induction false} KeepConcat(a: seq<Func>, b: seq<Func>, p: Func -> bool)
    ensures Keep(a + b, p) == Keep(a, p) + Keep(b, p)
    decreases |a|
  {
    hide Keep;
    KeepUnfolds(a, p);
    if a == [] {
      assert a + b == b && [] + Keep(b, p) == Keep(b, p);
    } else {
      assert (a + b)[1..] == a[1..] + b && (a + b)[0] == a[0];
      KeepUnfolds(a + b, p);
      KeepConcat(a[1..], b, p);
      var head := if p(a[0]) then [a[0]] else [];
      assert head + (Keep(a[1..], p) + Keep(b, p)) == (head + Keep(a[1..], p)) + Keep(b, p);
    }
  }

  lemma KeepUnfolds(t: seq<Func>, p: Func -> bool)
    ensures Keep(t, p) == if t == [] then [] else (if p(t[0]) then [t[0]] else []) + Keep(t[1..], p)
  {
  }

  lemma {:induction false} KeepNone(t: seq<Func>, p: Func -> bool)
    requires forall i :: 0 <= i < |t| ==> !p(t[i])
    ensures Keep(t, p) == []
  {
    if t != [] {
      KeepNone(t[1..], p);
    }
  }

  lemma {:induction false} KeepAll(t: seq<Func>, p: Func -> bool)
    requires forall i :: 0 <= i < |t| ==> p(t[i])
    ensures Keep(t, p) == t
  {
    if t != [] {
      KeepAll(t[1..], p);
    }
  }

  /** How many kept elements come before position i. */
  ghost function Rank(t: seq<Func>, p: Func -> bool, i: nat): nat
    requires i <= |t|
  {
    |Keep(t[..i], p)|
  }

  lemma KeptAt(t: seq<Func>, p: Func -> bool, i: nat, j: nat)
    requires i < j <= |t| && p(t[i])
    ensures Rank(t, p, i) < |Keep(t, p)| && Keep(t, p)[Rank(t, p, i)] == t[i]
    ensures Rank(t, p, i) < Rank(t, p, j) <= |Keep(t, p)|
  {
    assert t[..i + 1] == t[..i] + [t[i]];
    KeepConcat(t[..i], [t[i]], p);
    assert [t[i]][1..] == [] && Keep([t[i]], p) == [t[i]];
    assert t[..j] == t[..i + 1] + t[i + 1..j];
    KeepConcat(t[..i + 1], t[i + 1..j], p);
    assert t == t[..i + 1] + t[i + 1..] && t == t[..j] + t[j..];
    KeepConcat(t[..i + 1], t[i + 1..], p);
    KeepConcat(t[..j], t[j..], p);
  }

  lemma {:induction false} KeptFrom(t: seq<Func>, p: Func -> bool, n: nat) returns (i: nat)
    requires n < |Keep(t, p)|
    ensures i < |t| && p(t[i]) && t[i] == Keep(t, p)[n] && Rank(t, p, i) == n
  {
    if p(t[0]) && n == 0 {
      i := 0;
      assert t[..0] == [];
    } else {
      i := KeptFrom(t[1..], p, if p(t[0]) then n - 1 else n);
      i := i + 1;
      assert t[..i] == [t[0]] + t[1..][..i - 1];
      KeepConcat([t[0]], t[1..][..i - 1], p);
      assert [t[0]][1..] == [];
    }
  }

  // ----- what a tree keeps

  function UsersOf(h: int): Func -> bool {
    (f: Func) => f.User? && f.handler == h
  }

  function KidsOf(parent: nat): Func -> bool {
    (f: Func) => f.Added? && f.parent == parent
  }

  /** A filter that takes no function that a call from number k on puts in front. */
  ghost predicate Before(p: Func -> bool, k: nat) {
    forall f: Func :: p(f) ==> f.Added? ==> f.parent < k
  }

  /** Nothing here was put in front by a call from number k on. */
  ghost predicate Older(fs: seq<Func>, k: nat) {
    NoProcess(fs) && forall i :: 0 <= i < |fs| && fs[i].Added? ==> fs[i].parent < k
  }

  lemma AddsAre(h: int, k: nat, n: nat)
    ensures |Adds(h, k, n)| == n && forall i :: 0 <= i < n ==> Adds(h, k, n)[i] == Added(h, k, i)
    ensures Older(Adds(h, k, n), k + 1)
  {
  }

  lemma UsersAre(n: nat, h: int, k: nat)
    ensures |Users(n, h)| == n && forall i :: 0 <= i < n ==> Users(n, h)[i] == User(h, i)
    ensures Older(Users(n, h), k)
  {
  }

  /** The first function of a list, what it puts in front, and the rest of the list. */
  lemma Unfold(fs: seq<Func>, k: nat, acts: seq<Act>) returns (adds: seq<Func>, inner: seq<Func>, k': nat)
    requires Older(fs, k) && fs != []
    ensures fs[0] != Process && |adds| == ActOf(acts, k).adds
    ensures forall i :: 0 <= i < |adds| ==> adds[i] == Added(fs[0].handler, k, i)
    ensures Older(adds, k + 1) && NoProcess(adds) && inner == Tree(adds, k + 1, acts)
    ensures k' == k + 1 + |inner| && Older(fs[1..], k') && NoProcess(fs[1..]) && NoProcess(fs)
    ensures Tree(fs, k, acts) == [fs[0]] + inner + Tree(fs[1..], k', acts)
    ensures adds != [] ==> Left(acts, k + 1) < Left(acts, k)
    ensures Left(acts, k') <= Left(acts, k) && Left(acts, k + 1) <= Left(acts, k)
  {
    hide Tree, Adds;
    adds := Adds(fs[0].handler, k, ActOf(acts, k).adds);
    AddsAre(fs[0].handler, k, ActOf(acts, k).adds);
    TreeFirst(fs, k, acts);
    inner := Inner(fs[0], k, acts);
    k' := k + 1 + |inner|;
  }

  lemma BeforeLater(p: Func -> bool, k: nat, k': nat)
    requires Before(p, k) && k <= k'
    ensures Before(p, k')
  {
  }

  lemma AddsMiss(adds: seq<Func>, k: nat, p: Func -> bool)
    requires Before(p, k) && forall i :: 0 <= i < |adds| ==> adds[i].Added? && adds[i].parent == k
    ensures Keep(adds, p) == []
  {
    KeepNone(adds, p);
  }

  lemma KeepParts(f: Func, inner: seq<Func>, rest: seq<Func>, p: Func -> bool)
    ensures Keep([f] + inner + rest, p) == Keep([f], p) + Keep(inner, p) + Keep(rest, p)
  {
    KeepConcat([f] + inner, rest, p);
    KeepConcat([f], inner, p);
  }

  /** A tree has the functions it was made from, in their order, and otherwise only what its calls put in front. */
  lemma {:induction false} TreeKeeps(fs: seq<Func>, k: nat, acts: seq<Act>, p: Func -> bool)
    requires Older(fs, k) && NoProcess(fs) && Before(p, k)
    ensures Keep(Tree(fs, k, acts), p) == Keep(fs, p)
    decreases Left(acts, k), |fs|
  {
    hide Tree, Before, Older, Keep, NoProcess;
    if fs == [] {
      NoTree(k, acts);
    } else {
      var adds, inner, k' := Unfold(fs, k, acts);
      BeforeLater(p, k, k + 1);
      BeforeLater(p, k, k');
      TreeKeeps(adds, k + 1, acts, p);
      TreeKeeps(fs[1..], k', acts, p);
      AddsMiss(adds, k, p);
      KeepParts(fs[0], inner, Tree(fs[1..], k', acts), p);
      assert fs == [fs[0]] + fs[1..];
      KeepConcat([fs[0]], fs[1..], p);
      assert Keep([fs[0]], p) + [] == Keep([fs[0]], p);
    }
  }

  lemma KidsBefore(parent: nat, k: nat)
    requires parent < k
    ensures Before(KidsOf(parent), k)
  {
  }

  lemma OlderNoKids(fs: seq<Func>, k: nat, parent: nat)
    requires Older(fs, k) && k <= parent
    ensures Keep(fs, KidsOf(parent)) == []
  {
    KeepNone(fs, KidsOf(parent));
  }

  /** These are the functions that call number parent put in front, if it is one of the calls t from number k on. */
  ghost predicate KidsRight(t: seq<Func>, k: nat, parent: nat, kids: seq<Func>, acts: seq<Act>)
    requires k <= parent
  {
    if parent < k + |t| then
      && t[parent - k] != Process && |kids| == ActOf(acts, parent).adds
      && forall i :: 0 <= i < |kids| ==> kids[i] == Added(t[parent - k].handler, parent, i)
    else kids == []
  }

  /** What call number parent, one of a tree's calls, put in front is in the tree, in order. */
  lemma {:induction false} TreeKids(fs: seq<Func>, k: nat, acts: seq<Act>, parent: nat)
    requires Older(fs, k) && NoProcess(fs) && k <= parent
    ensures KidsRight(Tree(fs, k, acts), k, parent, Keep(Tree(fs, k, acts), KidsOf(parent)), acts)
    decreases Left(acts, k), |fs|
  {
    hide Tree, Older, Keep, NoProcess, KidsOf;
    var p := KidsOf(parent);
    if fs == [] {
      NoTree(k, acts);
      OlderNoKids(fs, k, parent);
    } else {
      var adds, inner, k' := Unfold(fs, k, acts);
      var rest := Tree(fs[1..], k', acts);
      KeepParts(fs[0], inner, rest, p);
      assert Keep([fs[0]], p) == [] by { FirstNoKid(fs, k, parent); }
      if parent == k {
        KidsBefore(parent, k + 1);
        KidsBefore(parent, k');
        TreeKeeps(adds, k + 1, acts, p);
        TreeKeeps(fs[1..], k', acts, p);
        OwnKids(adds, k);
        assert Keep(fs[1..], p) == [] by { RestNoKids(fs, k, parent); }
      } else {
        TreeKids(adds, k + 1, acts, parent);
        if parent < k' {
          KidsBefore(parent, k');
          TreeKeeps(fs[1..], k', acts, p);
          assert Keep(fs[1..], p) == [] by { RestNoKids(fs, k, parent); }
          assert ([fs[0]] + inner + rest)[parent - k] == inner[parent - k - 1];
        } else {
          TreeKids(fs[1..], k', acts, parent);
          assert parent < k + |[fs[0]] + inner + rest| ==> ([fs[0]] + inner + rest)[parent - k] == rest[parent - k'];
        }
      }
    }
  }

  lemma FirstNoKid(fs: seq<Func>, k: nat, parent: nat)
    requires Older(fs, k) && fs != [] && k <= parent
    ensures Keep([fs[0]], KidsOf(parent)) == []
  {
    assert [fs[0]][1..] == [];
  }

  lemma RestNoKids(fs: seq<Func>, k: nat, parent: nat)
    requires Older(fs, k) && fs != [] && k <= parent
    ensures Keep(fs[1..], KidsOf(parent)) == []
  {
    KeepNone(fs[1..], KidsOf(parent));
  }

  lemma OwnKids(adds: seq<Func>, k: nat)
    requires forall i :: 0 <= i < |adds| ==> adds[i].Added? && adds[i].parent == k
    ensures Keep(adds, KidsOf(k)) == adds
  {
    KeepAll(adds, KidsOf(k));
  }

  // ----- where things are in a tree

  /** Everything belongs to one handler. */
  ghost predicate OneHandler(fs: seq<Func>, h: int) {
    forall i :: 0 <= i < |fs| ==> fs[i] != Process && fs[i].handler == h
  }

  /** Every added function was put in front by an older call than b, or by one from k on. */
  ghost predicate Gap(t: seq<Func>, b: nat, k: nat) {
    forall i :: 0 <= i < |t| && t[i].Added? ==> t[i].parent < b || t[i].parent >= k
  }

  /** Everything was put in front by calls from number j on. */
  ghost predicate AddedFrom(t: seq<Func>, j: nat) {
    forall i :: 0 <= i < |t| ==> t[i].Added? && t[i].parent >= j
  }

  lemma {:induction false} TreeShape(fs: seq<Func>, b: nat, k: nat, acts: seq<Act>, h: int)
    requires Older(fs, b) && NoProcess(fs) && b <= k
    ensures Gap(Tree(fs, k, acts), b, k)
    ensures OneHandler(fs, h) ==> OneHandler(Tree(fs, k, acts), h)
    decreases Left(acts, k), |fs|
  {
    hide Tree, NoProcess;
    if fs == [] {
      NoTree(k, acts);
    } else {
      OlderTail(fs, b, k);
      var adds, inner, k' := Unfold(fs, k, acts);
      TreeShape(adds, k + 1, k + 1, acts, fs[0].handler);
      TreeFrom(adds, k, k + 1, acts);
      TreeShape(fs[1..], b, k', acts, h);
    }
  }

  lemma OlderTail(fs: seq<Func>, b: nat, k: nat)
    requires Older(fs, b) && fs != [] && b <= k
    ensures Older(fs, k) && Older(fs[1..], b)
  {
  }

  lemma {:induction false} TreeFrom(fs: seq<Func>, j: nat, k: nat, acts: seq<Act>)
    requires AddedFrom(fs, j) && Older(fs, k) && NoProcess(fs) && j <= k
    ensures AddedFrom(Tree(fs, k, acts), j)
    decreases Left(acts, k), |fs|
  {
    hide Tree, NoProcess, Older;
    if fs == [] {
      NoTree(k, acts);
    } else {
      var adds, inner, k' := Unfold(fs, k, acts);
      TreeFrom(adds, k, k + 1, acts);
      TreeFrom(fs[1..], j, k', acts);
    }
  }

  /** A function comes after the call that put it in front. */
  ghost predicate AfterParent(t: seq<Func>, k: nat, i: int) {
    0 <= i < |t| && t[i].Added? && t[i].parent >= k ==> t[i].parent < k + i
  }

  /** Between a call and what it put in front there is only what was put in front since that call. */
  ghost predicate Nested(t: seq<Func>, k: nat, i: int, m: int) {
    0 <= m < i < |t| && t[i].Added? && t[i].parent >= k && t[i].parent < k + m ==> t[m].Added? && t[m].parent >= t[i].parent
  }

  ghost predicate Placed(t: seq<Func>, k: nat) {
    (forall i :: AfterParent(t, k, i)) && (forall i, m :: Nested(t, k, i, m))
  }

  lemma PlacedJoin(f: Func, inner: seq<Func>, rest: seq<Func>, k: nat)
    requires !f.Added? || f.parent < k
    requires AddedFrom(inner, k) && Placed(inner, k + 1) && Gap(rest, k, k + 1 + |inner|) && Placed(rest, k + 1 + |inner|)
    ensures Placed([f] + inner + rest, k)
  {
    var t, k' := [f] + inner + rest, k + 1 + |inner|;
    forall i
      ensures AfterParent(t, k, i)
    {
      assert AfterParent(inner, k + 1, i - 1) && AfterParent(rest, k', i - 1 - |inner|);
    }
    forall i, m
      ensures Nested(t, k, i, m)
    {
      assert Nested(inner, k + 1, i - 1, m - 1) && Nested(rest, k', i - 1 - |inner|, m - 1 - |inner|);
    }
  }

  lemma {:induction false} TreePlaced(fs: seq<Func>, k: nat, acts: seq<Act>)
    requires Older(fs, k) && NoProcess(fs)
    ensures Placed(Tree(fs, k, acts), k)
    decreases Left(acts, k), |fs|
  {
    hide Tree, NoProcess, Placed;
    if fs == [] {
      NoTree(k, acts);
      assert Placed([], k) by { NonePlaced(k); }
    } else {
      var adds, inner, k' := Unfold(fs, k, acts);
      TreePlaced(adds, k + 1, acts);
      TreePlaced(fs[1..], k', acts);
      TreeFrom(adds, k, k + 1, acts);
      OlderTail(fs, k, k);
      TreeShape(fs[1..], k, k', acts, 0);
      PlacedJoin(fs[0], inner, Tree(fs[1..], k', acts), k);
    }
  }

  lemma NonePlaced(k: nat)
    ensures Placed([], k)
  {
  }

  // ----- the whole request

  /** Running one more handler's functions behind everything so far. */
  lemma PlacedAppend(a: seq<Func>, b: seq<Func>)
    requires Placed(a, 0) && Placed(b, |a|) && Gap(b, 0, |a|)
    ensures Placed(a + b, 0)
  {
    var t := a + b;
    forall i
      ensures AfterParent(t, 0, i)
    {
      assert AfterParent(a, 0, i) && AfterParent(b, |a|, i - |a|);
    }
    forall i, m
      ensures Nested(t, 0, i, m)
    {
      assert Nested(a, 0, i, m) && Nested(b, |a|, i - |a|, m - |a|);
    }
  }

  /** How many functions a handler has; -1 stands for after_recv_msg. */
  function FuncsOf(hs: seq<Handler>, users: nat, h: int): nat
    requires h < |hs|
  {
    if h < 0 then users else hs[h].funcs
  }

  /** The handler is after_recv_msg or one of those found. */
  ghost predicate Found(ran: seq<nat>, h: int) {
    h == -1 || (h >= 0 && h in ran)
  }

  /** What is known of everything that is run for these handlers. */
  ghost predicate DueOk(hs: seq<Handler>, users: nat, ran: seq<nat>, acts: seq<Act>, due: seq<Func>)
    requires Ascending(ran, |hs|)
  {
    && Placed(due, 0)
    && (forall i :: 0 <= i < |due| ==> due[i] != Process && Found(ran, due[i].handler))
    && (forall i, j :: 0 <= i < j < |due| ==> due[i].handler <= due[j].handler)
    && (forall h :: h < |hs| ==> KeptUsers(due, h, if Found(ran, h) then FuncsOf(hs, users, h) else 0))
    && (forall parent :: 0 <= parent ==> KidsRight(due, 0, parent, Keep(due, KidsOf(parent)), acts))
  }

  /** The functions of handler h are kept as its functions 0 to n - 1, in this order. */
  ghost predicate KeptUsers(t: seq<Func>, h: int, n: nat) {
    |Keep(t, UsersOf(h))| == n && forall i :: 0 <= i < n ==> Keep(t, UsersOf(h))[i] == User(h, i)
  }

  lemma UsersBefore(h: int, k: nat)
    ensures Before(UsersOf(h), k)
  {
  }

  /** A tree of one handler's functions. */
  lemma HandlerTree(n: nat, r: int, k: nat, acts: seq<Act>, h: int)
    ensures Older(Users(n, r), 0) && NoProcess(Users(n, r))
    ensures KeptUsers(Tree(Users(n, r), k, acts), h, if h == r then n else 0)
  {
    hide Tree, Users, Keep;
    UsersAre(n, r, 0);
    UsersAre(n, r, k);
    UsersBefore(h, k);
    var us := Users(n, r);
    TreeKeeps(us, k, acts, UsersOf(h));
    if h == r {
      KeepAll(us, UsersOf(h));
    } else {
      KeepNone(us, UsersOf(h));
    }
  }

  lemma {:induction false} DueRight(hs: seq<Handler>, users: nat, ran: seq<nat>, acts: seq<Act>)
    requires Ascending(ran, |hs|)
    ensures DueOk(hs, users, ran, acts, Due(hs, users, ran, acts))
    decreases |ran|
  {
    hide DueOk, Tree, Users;
    if ran == [] {
      var none: seq<Func> := [];
      NothingDue(hs, users, acts);
      AppendDue(hs, users, ran, acts, none, -1);
      assert none + Tree(Users(users, -1), 0, acts) == Tree(Users(users, -1), 0, acts);
    } else {
      var ran', r := ran[..|ran| - 1], ran[|ran| - 1];
      DueRight(hs, users, ran', acts);
      AppendDue(hs, users, ran, acts, Due(hs, users, ran', acts), r);
    }
  }

  /** Nothing run yet, before even after_recv_msg. */
  ghost predicate DueSoFar(hs: seq<Handler>, users: nat, ran: seq<nat>, acts: seq<Act>, before: seq<Func>, r: int)
    requires Ascending(ran, |hs|)
  {
    if r == -1 then ran == [] && before == []
    else ran != [] && r == ran[|ran| - 1] && Ascending(ran[..|ran| - 1], |hs|) && DueOk(hs, users, ran[..|ran| - 1], acts, before)
  }

  lemma NothingDue(hs: seq<Handler>, users: nat, acts: seq<Act>)
    ensures Ascending([], |hs|) && DueSoFar(hs, users, [], acts, [], -1)
  {
  }

  /** One more handler, behind all so far. */
  lemma AppendDue(hs: seq<Handler>, users: nat, ran: seq<nat>, acts: seq<Act>, before: seq<Func>, r: int)
    requires Ascending(ran, |hs|) && r < |hs| && DueSoFar(hs, users, ran, acts, before, r)
    ensures NoProcess(Users(FuncsOf(hs, users, r), r))
    ensures DueOk(hs, users, ran, acts, before + Tree(Users(FuncsOf(hs, users, r), r), |before|, acts))
  {
    hide Tree, Users, Keep, Placed, KeptUsers, KidsRight, NoProcess, Older;
    var n := FuncsOf(hs, users, r);
    var us := Users(n, r);
    HandlerTree(n, r, |before|, acts, r);
    var t := Tree(us, |before|, acts);
    assert OneHandler(us, r) by { UsersAre(n, r, 0); }
    TreeShape(us, 0, |before|, acts, r);
    AppendPlaced(before, us, t, acts, r == -1);
    forall h | h < |hs|
      ensures KeptUsers(before + t, h, if Found(ran, h) then FuncsOf(hs, users, h) else 0)
    {
      AppendUsers(hs, users, ran, acts, before, r, h);
    }
    forall parent | 0 <= parent
      ensures KidsRight(before + t, 0, parent, Keep(before + t, KidsOf(parent)), acts)
    {
      AppendKids(hs, users, ran, acts, before, r, parent);
    }
  }

  lemma AppendPlaced(before: seq<Func>, us: seq<Func>, t: seq<Func>, acts: seq<Act>, first: bool)
    requires NoProcess(us) && Older(us, 0) && t == Tree(us, |before|, acts) && (if first then before == [] else Placed(before, 0))
    ensures Placed(before + t, 0)
  {
    hide Tree, NoProcess, Placed;
    assert Older(us, |before|);
    TreePlaced(us, |before|, acts);
    TreeShape(us, 0, |before|, acts, 0);
    if first {
      NonePlaced(0);
    }
    PlacedAppend(before, t);
  }

  lemma AppendUsers(hs: seq<Handler>, users: nat, ran: seq<nat>, acts: seq<Act>, before: seq<Func>, r: int, h: int)
    requires Ascending(ran, |hs|) && r < |hs| && DueSoFar(hs, users, ran, acts, before, r) && h < |hs|
    ensures NoProcess(Users(FuncsOf(hs, users, r), r))
    ensures var t := Tree(Users(FuncsOf(hs, users, r), r), |before|, acts);
            KeptUsers(before + t, h, if Found(ran, h) then FuncsOf(hs, users, h) else 0)
  {
    hide Tree, Users, Keep, NoProcess, Placed, KidsRight;
    var n := FuncsOf(hs, users, r);
    HandlerTree(n, r, |before|, acts, h);
    var t := Tree(Users(n, r), |before|, acts);
    KeepConcat(before, t, UsersOf(h));
    if r == -1 {
      KeepNone(before, UsersOf(h));
    } else {
      var ran' := ran[..|ran| - 1];
      assert KeptUsers(before, h, if Found(ran', h) then FuncsOf(hs, users, h) else 0);
      assert Found(ran, h) <==> Found(ran', h) || h == r by { assert ran == ran' + [r]; }
      assert !Found(ran', r);
    }
  }

  lemma AppendKids(hs: seq<Handler>, users: nat, ran: seq<nat>, acts: seq<Act>, before: seq<Func>, r: int, parent: nat)
    requires Ascending(ran, |hs|) && r < |hs| && DueSoFar(hs, users, ran, acts, before, r)
    ensures NoProcess(Users(FuncsOf(hs, users, r), r))
    ensures var t := Tree(Users(FuncsOf(hs, users, r), r), |before|, acts);
            KidsRight(before + t, 0, parent, Keep(before + t, KidsOf(parent)), acts)
  {
    hide Tree, Users, Keep, NoProcess, Placed, KeptUsers, KidsOf;
    var us := Users(FuncsOf(hs, users, r), r);
    HandlerTree(FuncsOf(hs, users, r), r, |before|, acts, r);
    UsersAre(FuncsOf(hs, users, r), r, |before|);
    var t := Tree(us, |before|, acts);
    KeepConcat(before, t, KidsOf(parent));
    if r == -1 {
      assert Keep(before, KidsOf(parent)) == [] by { KeepNone(before, KidsOf(parent)); }
    } else {
      assert KidsRight(before, 0, parent, Keep(before, KidsOf(parent)), acts);
    }
    if parent < |before| {
      KidsBefore(parent, |before|);
      TreeKeeps(us, |before|, acts, KidsOf(parent));
      OlderNoKids(us, 0, parent);
    } else {
      TreeKids(us, |before|, acts, parent);
    }
  }

  // ----- on the calls themselves

  ghost predicate Occurs(calls: seq<Call>, f: Func) {
    exists i :: 0 <= i < |calls| && calls[i].func == f
  }

  /** The functions of a handler run in the order of its list. */
  ghost predicate UsersInOrder(calls: seq<Call>) {
    forall i, j :: 0 <= i < j < |calls| && calls[i].func.User? && calls[j].func.User? && calls[i].func.handler == calls[j].func.handler
      ==> calls[i].func.index < calls[j].func.index
  }

  /** All functions of after_recv_msg and of the handlers found run, and no other handler's. */
  ghost predicate UsersAll(hs: seq<Handler>, users: nat, ran: seq<nat>, calls: seq<Call>) {
    && (forall a :: 0 <= a < users ==> Occurs(calls, User(-1, a)))
    && (forall h, a :: h in ran && h < |hs| && 0 <= a < hs[h].funcs ==> Occurs(calls, User(h, a)))
    && (forall i :: 0 <= i < |calls| && calls[i].func.User? ==>
          var f := calls[i].func;
          (f.handler == -1 && f.index < users) || (0 <= f.handler < |hs| && f.handler in ran && f.index < hs[f.handler].funcs))
  }

  /** What one call puts in front runs in the order in which it stands there. */
  ghost predicate AddedInOrder(calls: seq<Call>) {
    forall i, j :: 0 <= i < j < |calls| && calls[i].func.Added? && calls[j].func.Added? && calls[i].func.parent == calls[j].func.parent
      ==> calls[i].func.index < calls[j].func.index
  }

  /** Everything that a call puts in front runs after it, and nothing runs as such that was not. */
  ghost predicate AddedAll(acts: seq<Act>, calls: seq<Call>) {
    && (forall p, a :: 0 <= p < |calls| && 0 <= a < ActOf(acts, p).adds && calls[p].func != Process
          ==> Occurs(calls, Added(calls[p].func.handler, p, a)))
    && (forall i :: 0 <= i < |calls| && calls[i].func.Added? ==>
          var f := calls[i].func;
          f.parent < i && calls[f.parent].func != Process && f.handler == calls[f.parent].func.handler && f.index < ActOf(acts, f.parent).adds)
  }

  /** Between a call and what it put in front, only what was put in front since runs. */
  ghost predicate AddedAtOnce(calls: seq<Call>) {
    forall i, m :: 0 <= m < i < |calls| && calls[i].func.Added? && calls[i].func.parent < m
      ==> calls[m].func.Added? && calls[m].func.parent >= calls[i].func.parent
  }

  /** Handlers run one after the other. */
  ghost predicate HandlersInOrder(calls: seq<Call>) {
    && (forall i :: 0 <= i < |calls| ==> calls[i].func != Process)
    && (forall i, j :: 0 <= i < j < |calls| ==> calls[i].func.handler <= calls[j].func.handler)
  }

  lemma KeptOccurs(calls: seq<Call>, p: Func -> bool, n: nat)
    requires n < |Keep(Invoked(calls), p)|
    ensures Occurs(calls, Keep(Invoked(calls), p)[n])
  {
    hide Keep;
    var i := KeptFrom(Invoked(calls), p, n);
    assert calls[i].func == Invoked(calls)[i];
  }

  lemma UsersRun(hs: seq<Handler>, users: nat, ran: seq<nat>, acts: seq<Act>, calls: seq<Call>)
    requires Ascending(ran, |hs|) && DueOk(hs, users, ran, acts, Invoked(calls))
    ensures UsersInOrder(calls) && UsersAll(hs, users, ran, calls)
  {
    hide Keep, Placed, KidsRight;
    var due := Invoked(calls);
    forall i, j | 0 <= i < j < |calls| && calls[i].func.User? && calls[j].func.User? && calls[i].func.handler == calls[j].func.handler
      ensures calls[i].func.index < calls[j].func.index
    {
      var h := calls[i].func.handler;
      assert due[i] == calls[i].func && due[j] == calls[j].func && h < |hs|;
      KeptAt(due, UsersOf(h), i, j);
      KeptAt(due, UsersOf(h), j, |due|);
      assert Found(ran, h);
      assert KeptUsers(due, h, FuncsOf(hs, users, h));
    }
    forall h, a | -1 <= h < |hs| && Found(ran, h) && 0 <= a < FuncsOf(hs, users, h)
      ensures Occurs(calls, User(h, a))
    {
      assert KeptUsers(due, h, FuncsOf(hs, users, h));
      KeptOccurs(calls, UsersOf(h), a);
    }
    forall a | 0 <= a < users
      ensures Occurs(calls, User(-1, a))
    {
      assert Found(ran, -1) && FuncsOf(hs, users, -1) == users;
    }
    forall h, a | h in ran && h < |hs| && 0 <= a < hs[h].funcs
      ensures Occurs(calls, User(h, a))
    {
      assert Found(ran, h) && FuncsOf(hs, users, h) == hs[h].funcs;
    }
    forall i | 0 <= i < |calls| && calls[i].func.User?
      ensures var f := calls[i].func;
              (f.handler == -1 && f.index < users) || (0 <= f.handler < |hs| && f.handler in ran && f.index < hs[f.handler].funcs)
    {
      var h := calls[i].func.handler;
      assert due[i] == calls[i].func;
      KeptAt(due, UsersOf(h), i, |due|);
      assert Found(ran, h);
      assert KeptUsers(due, h, FuncsOf(hs, users, h));
    }
  }

  lemma AddedRun(hs: seq<Handler>, users: nat, ran: seq<nat>, acts: seq<Act>, calls: seq<Call>)
    requires Ascending(ran, |hs|) && DueOk(hs, users, ran, acts, Invoked(calls))
    ensures AddedInOrder(calls) && AddedAll(acts, calls)
  {
    hide Keep, KeptUsers;
    var due := Invoked(calls);
    forall i | 0 <= i < |calls| && calls[i].func.Added?
      ensures var f := calls[i].func;
              && f.parent < i && calls[f.parent].func != Process && f.handler == calls[f.parent].func.handler
              && f.index < ActOf(acts, f.parent).adds
              && Rank(due, KidsOf(f.parent), i) == f.index
    {
      var parent := calls[i].func.parent;
      assert due[i] == calls[i].func && AfterParent(due, 0, i);
      assert due[parent] == calls[parent].func;
      KeptAt(due, KidsOf(parent), i, |due|);
      assert KidsRight(due, 0, parent, Keep(due, KidsOf(parent)), acts);
    }
    forall i, j | 0 <= i < j < |calls| && calls[i].func.Added? && calls[j].func.Added? && calls[i].func.parent == calls[j].func.parent
      ensures calls[i].func.index < calls[j].func.index
    {
      assert due[i] == calls[i].func;
      KeptAt(due, KidsOf(calls[i].func.parent), i, j);
    }
    forall p, a | 0 <= p < |calls| && 0 <= a < ActOf(acts, p).adds && calls[p].func != Process
      ensures Occurs(calls, Added(calls[p].func.handler, p, a))
    {
      assert KidsRight(due, 0, p, Keep(due, KidsOf(p)), acts) && due[p] == calls[p].func;
      KeptOccurs(calls, KidsOf(p), a);
    }
  }

  lemma PlacesRun(hs: seq<Handler>, users: nat, ran: seq<nat>, acts: seq<Act>, calls: seq<Call>)
    requires Ascending(ran, |hs|) && DueOk(hs, users, ran, acts, Invoked(calls))
    ensures AddedAtOnce(calls) && HandlersInOrder(calls)
  {
    hide Keep, KeptUsers, KidsRight;
    var due := Invoked(calls);
    assert forall i :: 0 <= i < |calls| ==> due[i] == calls[i].func;
    forall i, m | 0 <= m < i < |calls| && calls[i].func.Added? && calls[i].func.parent < m
      ensures calls[m].func.Added? && calls[m].func.parent >= calls[i].func.parent
    {
      assert Nested(due, 0, i, m);
    }
  }

  /**
   For every request, handler list and behaviour of the user functions, which may set the status line and put
   further functions in front: handling ends. The functions of after_recv_msg and of each handler found run, each
   exactly once and in the order of its list, handler after handler; what a function puts in front runs, in
   its order, directly behind it; nothing else runs. The handlers found are the ones whose pattern the
   request is an instance of, in registration order, all of them if nothing sets the status line, and
   otherwise those up to the handler whose function set it; and the request data holds exactly the values
   of their parameters.
   */
  method HandleRequest(hs: seq<Handler>, text: string, users: nat, acts: seq<Act>)
    returns (ran: seq<nat>, calls: seq<Call>, data: R.Table)
    requires Registered(hs) && Lacks(text, '\0') && Lacks(text, '{')
    ensures ran <= Matching(hs, text, |hs|) && AllMatch(hs, text, ran)
    ensures UsersInOrder(calls) && UsersAll(hs, users, ran, calls)
    ensures AddedInOrder(calls) && AddedAll(acts, calls) && AddedAtOnce(calls)
    ensures HandlersInOrder(calls) && Acted(calls, acts)
    ensures (forall i :: 0 <= i < |calls| ==> !calls[i].sets) ==> ran == Matching(hs, text, |hs|)
    ensures forall i :: 0 <= i < |calls| && calls[i].sets ==>
      calls[i].func != Process && -1 <= calls[i].func.handler < |hs| && ran == Matching(hs, text, calls[i].func.handler + 1)
    ensures data == Stored(hs, text, ran)
  {
    hide Registered, Matches, Lacks, Stored, Due, Inv, Acted, AllMatch, Invoked, Matching, DueOk, UsersAll, UsersInOrder,
      AddedAll, AddedInOrder, AddedAtOnce, HandlersInOrder, Ascending;
    var h := new Handling(hs, text, users, acts);
    h.Handle(hs, text, users, acts);
    EndsHandled(hs, text, users, acts, h.View());
    ran, calls, data := h.ran, h.calls, h.data;
    FoundAscend(hs, text, ran);
    DueRight(hs, users, ran, acts);
    UsersRun(hs, users, ran, acts, calls);
    AddedRun(hs, users, ran, acts, calls);
    PlacesRun(hs, users, ran, acts, calls);
  }

  lemma FoundAscend(hs: seq<Handler>, text: string, ran: seq<nat>)
    requires ran <= Matching(hs, text, |hs|)
    ensures Ascending(ran, |hs|)
  {
    hide Matching, Matches;
    MatchingIncreases(hs, text, |hs|);
  }
}
