/** Checkpoint upgrades: loading the scripts, and applying those that are due in an order that respects dependencies. */
module Upgrades {

  type Tag = string

  /** What a script declares. */
  datatype Script = Script(depends: seq<Tag>, fwdDepends: seq<Tag>)

  /** The dependencies of all tags; `untags` are those whose script is a downgrader. */
  datatype Known = Known(depends: map<Tag, seq<Tag>>, untags: set<Tag>)

  datatype Loaded = Ready(depends: map<Tag, seq<Tag>>) | Rejected

  // ----- applying upgrades

  /** Every dependency is a known tag. */
  ghost predicate Audited(depends: map<Tag, seq<Tag>>) {
    forall t, d :: t in depends && d in depends[t] ==> d in depends
  }

  /** Tags to add, and tags to remove. */
  ghost function Due(u: Known, tags: set<Tag>): set<Tag> {
    (u.depends.Keys - u.untags - tags) + (u.untags * tags)
  }

  predicate IsReady(depends: map<Tag, seq<Tag>>, t: Tag, tags: set<Tag>) {
    t in depends && forall d :: d in depends[t] ==> d in tags
  }

  ghost function Elems(s: seq<Tag>): set<Tag> {
    set t | t in s
  }

  /** The tags of the checkpoint after these scripts. */
  ghost function TagsAfter(u: Known, tags: set<Tag>, applied: seq<Tag>): set<Tag> {
    tags + Elems(applied) - Elems(applied) * u.untags
  }

  /** At some moment before script `p` was applied, all its dependencies were among the tags. */
  ghost predicate WasReady(u: Known, tags: set<Tag>, applied: seq<Tag>, p: nat)
    requires p < |applied|
  {
    exists r :: 0 <= r <= p && IsReady(u.depends, applied[p], TagsAfter(u, tags, applied[..r]))
  }

  /** Only scripts that are due are applied, once each, and only once they were ready. */
  ghost predicate InOrder(u: Known, tags: set<Tag>, applied: seq<Tag>) {
    && (forall p :: 0 <= p < |applied| ==> applied[p] in Due(u, tags) && WasReady(u, tags, applied, p))
    && forall p, q :: 0 <= p < q < |applied| ==> applied[p] != applied[q]
  }

  /** Each tag depends on the next one, and the last one on the first. */
  ghost predicate IsCycle(depends: map<Tag, seq<Tag>>, c: seq<Tag>) {
    && |c| > 0 && (forall i :: 0 <= i < |c| ==> c[i] in depends)
    && (forall i :: 0 <= i < |c| - 1 ==> c[i + 1] in depends[c[i]])
    && c[0] in depends[c[|c| - 1]]
  }

  /** A dependency cycle among tags that are to be added. */
  ghost predicate HasCycle(u: Known, tags: set<Tag>) {
    exists c :: IsCycle(u.depends, c) && Elems(c) <= Due(u, tags)
  }

  /** A tag that is due depends on one that no script will add. */
  ghost predicate Hopeless(u: Known, tags: set<Tag>, t: Tag) {
    t in Due(u, tags) && t in u.depends && exists d :: d in u.depends[t] && d in u.untags && d !in tags
  }

  /** What is left to apply. */
  ghost function Left(u: Known, tags: set<Tag>, applied: seq<Tag>): set<Tag> {
    Due(u, tags) - Elems(applied)
  }

  /** The state between scripts: `tags` are the tags of the checkpoint so far. */
  ghost predicate State(u: Known, tags0: set<Tag>, tags: set<Tag>, applied: seq<Tag>) {
    InOrder(u, tags0, applied) && tags == TagsAfter(u, tags0, applied)
  }

  ghost predicate Stuck(u: Known, tags: set<Tag>, left: set<Tag>) {
    left != {} && forall t :: t in left ==> !IsReady(u.depends, t, tags)
  }

  /**
   * In rounds: everything that is ready is applied, in any order. The loop ends when nothing is left or nothing is
   * ready. `applied` lists the scripts in the order of their application.
   */
  method Upgrade(u: Known, tags0: set<Tag>) returns (ok: bool, tags: set<Tag>, applied: seq<Tag>)
    requires u.untags <= u.depends.Keys
    ensures InOrder(u, tags0, applied) && tags == TagsAfter(u, tags0, applied)
    ensures ok ==> Elems(applied) == Due(u, tags0) && tags == tags0 + (u.depends.Keys - u.untags) - u.untags
    ensures !ok ==> Stuck(u, tags, Left(u, tags0, applied))
    ensures Audited(u.depends) && u.untags !! tags0 ==>
              (ok <==> !HasCycle(u, tags0) && forall t :: !Hopeless(u, tags0, t))
  {
    hide InOrder, IsReady, State, Elems, Due, TagsAfter, Left, HasCycle, Hopeless, Audited;
    tags, applied := tags0, [];
    var toApply := (u.depends.Keys - u.untags - tags0) + (u.untags * tags0);
    Start(u, tags0);
    while toApply != {}
      invariant toApply == Left(u, tags0, applied)
      invariant State(u, tags0, tags, applied)
      decreases |toApply|
    {
      var ready := set t | t in toApply && IsReady(u.depends, t, tags);
      if ready == {} {
        forall t | t in toApply
          ensures !IsReady(u.depends, t, tags)
        {
          assert t !in ready;
        }
        StateIs(u, tags0, tags, applied);
        if Audited(u.depends) && u.untags !! tags0 {
          FailsExactly(u, tags0, false, tags, applied);
        }
        return false, tags, applied;
      }
      tags, applied := ApplyAll(u, tags0, tags, applied, ready);
      Smaller(toApply, ready);
      toApply := toApply - ready;
    }
    Finished(u, tags0, tags, applied);
    if Audited(u.depends) && u.untags !! tags0 {
      FailsExactly(u, tags0, true, tags, applied);
    }
    return true, tags, applied;
  }

  lemma Start(u: Known, tags: set<Tag>)
    ensures State(u, tags, tags, []) && Left(u, tags, []) == (u.depends.Keys - u.untags - tags) + (u.untags * tags)
  {
  }

  lemma StateIs(u: Known, tags0: set<Tag>, tags: set<Tag>, applied: seq<Tag>)
    requires State(u, tags0, tags, applied)
    ensures InOrder(u, tags0, applied) && tags == TagsAfter(u, tags0, applied)
  {
  }

  lemma AppliedDue(u: Known, tags: set<Tag>, applied: seq<Tag>)
    requires InOrder(u, tags, applied)
    ensures Elems(applied) <= Due(u, tags)
  {
    hide WasReady, Due;
    forall t | t in Elems(applied)
      ensures t in Due(u, tags)
    {
      var p :| 0 <= p < |applied| && applied[p] == t;
    }
  }

  lemma Finished(u: Known, tags0: set<Tag>, tags: set<Tag>, applied: seq<Tag>)
    requires State(u, tags0, tags, applied) && Left(u, tags0, applied) == {}
    ensures InOrder(u, tags0, applied) && tags == TagsAfter(u, tags0, applied)
    ensures Elems(applied) == Due(u, tags0) && tags == tags0 + (u.depends.Keys - u.untags) - u.untags
  {
    hide InOrder, Elems;
    AppliedDue(u, tags0, applied);
    forall t | t in Due(u, tags0)
      ensures t in Elems(applied)
    {
      assert t !in Left(u, tags0, applied);
    }
  }

  lemma Smaller(s: set<Tag>, r: set<Tag>)
    requires r != {} && r <= s
    ensures |s - r| < |s|
  {
    assert s - r < s;
  }

  /** One round. */
  method ApplyAll(u: Known, ghost tags0: set<Tag>, tags1: set<Tag>, applied1: seq<Tag>, ready: set<Tag>)
    returns (tags: set<Tag>, applied: seq<Tag>)
    requires State(u, tags0, tags1, applied1)
    requires ready <= Left(u, tags0, applied1) && forall t :: t in ready ==> IsReady(u.depends, t, tags1)
    ensures State(u, tags0, tags, applied) && Left(u, tags0, applied) == Left(u, tags0, applied1) - ready
  {
    hide InOrder, IsReady, State, Left;
    tags, applied := tags1, applied1;
    var rest := ready;
    while rest != {}
      invariant rest <= ready && State(u, tags0, tags, applied) && applied1 <= applied
      invariant Left(u, tags0, applied) == Left(u, tags0, applied1) - (ready - rest)
      decreases |rest|
    {
      var t :| t in rest;
      ApplyNext(u, tags0, tags1, applied1, tags, applied, t);
      applied := applied + [t];
      tags := if t in u.untags then tags - {t} else tags + {t};
      Smaller(rest, {t});
      rest := rest - {t};
    }
  }

  lemma ElemsNext(s: seq<Tag>, t: Tag)
    ensures Elems(s + [t]) == Elems(s) + {t}
  {
  }

  lemma ApplyNext(u: Known, tags0: set<Tag>, tags1: set<Tag>, applied1: seq<Tag>, tags: set<Tag>, applied: seq<Tag>, t: Tag)
    requires State(u, tags0, tags1, applied1) && State(u, tags0, tags, applied) && applied1 <= applied
    requires t in Left(u, tags0, applied) && IsReady(u.depends, t, tags1)
    ensures State(u, tags0, if t in u.untags then tags - {t} else tags + {t}, applied + [t])
    ensures Left(u, tags0, applied + [t]) == Left(u, tags0, applied) - {t}
  {
    hide IsReady, TagsAfter, Due, WasReady, Elems;
    InOrderNext(u, tags0, tags1, applied1, applied, t);
    TagsNext(u, tags0, applied, t);
    ElemsNext(applied, t);
  }

  lemma TagsNext(u: Known, tags0: set<Tag>, applied: seq<Tag>, t: Tag)
    requires t in Left(u, tags0, applied)
    ensures var tags := TagsAfter(u, tags0, applied);
            TagsAfter(u, tags0, applied + [t]) == if t in u.untags then tags - {t} else tags + {t}
  {
    hide Elems;
    ElemsNext(applied, t);
  }

  lemma InOrderNext(u: Known, tags0: set<Tag>, tags1: set<Tag>, applied1: seq<Tag>, applied: seq<Tag>, t: Tag)
    requires tags1 == TagsAfter(u, tags0, applied1) && InOrder(u, tags0, applied) && applied1 <= applied
    requires t in Left(u, tags0, applied) && IsReady(u.depends, t, tags1)
    ensures InOrder(u, tags0, applied + [t])
  {
    hide IsReady, TagsAfter, Due;
    var s := applied + [t];
    assert s[..|applied1|] == applied1;
    assert WasReady(u, tags0, s, |applied|);
    forall p | 0 <= p < |applied|
      ensures WasReady(u, tags0, s, p)
    {
      StillReady(u, tags0, applied, t, p);
    }
  }

  lemma StillReady(u: Known, tags: set<Tag>, applied: seq<Tag>, t: Tag, p: nat)
    requires p < |applied| && WasReady(u, tags, applied, p)
    ensures WasReady(u, tags, applied + [t], p)
  {
    hide IsReady, TagsAfter;
    var r :| 0 <= r <= p && IsReady(u.depends, applied[p], TagsAfter(u, tags, applied[..r]));
    assert (applied + [t])[..r] == applied[..r];
  }

  // ----- when nothing has to be removed: stuck exactly on cycles and on tags no script adds

  /** What the loop ends with is decided by the dependencies alone. */
  lemma FailsExactly(u: Known, tags0: set<Tag>, ok: bool, tags: set<Tag>, applied: seq<Tag>)
    requires Audited(u.depends) && u.untags !! tags0 && InOrder(u, tags0, applied) && tags == TagsAfter(u, tags0, applied)
    requires if ok then Elems(applied) == Due(u, tags0) else Stuck(u, tags, Left(u, tags0, applied))
    ensures ok <==> !HasCycle(u, tags0) && forall t :: !Hopeless(u, tags0, t)
  {
    hide InOrder, HasCycle, Hopeless, Stuck, Due, Elems, TagsAfter;
    if ok {
      NoneOnCycle(u, tags0, applied);
      NoneHopeless(u, tags0, applied);
    } else {
      StuckHasReason(u, tags0, tags, applied);
    }
  }

  /** Without removals the tags only grow. */
  lemma Growing(u: Known, tags: set<Tag>, applied: seq<Tag>, r: nat)
    requires u.untags !! tags && InOrder(u, tags, applied) && r <= |applied|
    ensures TagsAfter(u, tags, applied[..r]) == tags + Elems(applied[..r]) && Elems(applied[..r]) !! u.untags
  {
    hide WasReady;
    forall t | t in Elems(applied[..r])
      ensures t !in u.untags
    {
      var p :| 0 <= p < r && applied[p] == t;
      assert t in Due(u, tags);
    }
  }

  /** A script that was applied had its dependencies before it. */
  lemma DependsBefore(u: Known, tags: set<Tag>, applied: seq<Tag>, p: nat, d: Tag)
    requires u.untags !! tags && InOrder(u, tags, applied) && p < |applied|
    requires applied[p] in u.depends && d in u.depends[applied[p]]
    ensures d in tags || (d !in u.untags && d in Elems(applied[..p]))
  {
    hide TagsAfter, Due;
    var r :| 0 <= r <= p && IsReady(u.depends, applied[p], TagsAfter(u, tags, applied[..r]));
    Growing(u, tags, applied, r);
    if d !in tags {
      var q :| 0 <= q < r && applied[q] == d;
      assert applied[..p][q] == d;
    }
  }

  lemma NoneHopeless(u: Known, tags: set<Tag>, applied: seq<Tag>)
    requires u.untags !! tags && InOrder(u, tags, applied) && Due(u, tags) == Elems(applied)
    ensures forall t :: !Hopeless(u, tags, t)
  {
    hide InOrder, Due;
    forall t
      ensures !Hopeless(u, tags, t)
    {
      if t in Due(u, tags) && t in u.depends {
        var p :| 0 <= p < |applied| && applied[p] == t;
        forall d | d in u.depends[t] && d in u.untags
          ensures d in tags
        {
          DependsBefore(u, tags, applied, p, d);
        }
      }
    }
  }

  /** The successor of a tag on a cycle. */
  lemma CycleNext(depends: map<Tag, seq<Tag>>, c: seq<Tag>, i: nat) returns (d: Tag)
    requires IsCycle(depends, c) && i < |c|
    ensures c[i] in depends && d in depends[c[i]] && d in c
  {
    d := if i == |c| - 1 then c[0] else c[i + 1];
  }

  /** Tags that have been applied in order are on no cycle. */
  lemma {:induction false} NotOnCycle(u: Known, tags: set<Tag>, applied: seq<Tag>, c: seq<Tag>, n: nat)
    requires u.untags !! tags && InOrder(u, tags, applied) && IsCycle(u.depends, c) && Elems(c) !! tags && n <= |applied|
    ensures forall i, p :: 0 <= i < |c| && 0 <= p < n ==> c[i] != applied[p]
    decreases n
  {
    hide IsCycle, InOrder;
    if n > 0 {
      NotOnCycle(u, tags, applied, c, n - 1);
      forall i | 0 <= i < |c|
        ensures c[i] != applied[n - 1]
      {
        var d := CycleNext(u.depends, c, i);
        var j :| 0 <= j < |c| && c[j] == d;
        assert d in Elems(c);
        assert d !in Elems(applied[..n - 1]);
        if c[i] == applied[n - 1] {
          DependsBefore(u, tags, applied, n - 1, d);
        }
      }
    }
  }

  /** The first tag of a cycle is never applied. */
  lemma CycleStays(u: Known, tags: set<Tag>, applied: seq<Tag>, c: seq<Tag>)
    requires u.untags !! tags && InOrder(u, tags, applied) && IsCycle(u.depends, c) && Elems(c) <= Due(u, tags)
    ensures c[0] in Left(u, tags, applied)
  {
    hide InOrder;
    NotOnCycle(u, tags, applied, c, |applied|);
    assert c[0] in Elems(c);
  }

  lemma NoneOnCycle(u: Known, tags: set<Tag>, applied: seq<Tag>)
    requires u.untags !! tags && InOrder(u, tags, applied) && Due(u, tags) == Elems(applied)
    ensures !HasCycle(u, tags)
  {
    hide InOrder, IsCycle, Due, Elems;
    if HasCycle(u, tags) {
      var c :| IsCycle(u.depends, c) && Elems(c) <= Due(u, tags);
      CycleStays(u, tags, applied, c);
    }
  }

  /** If nothing that is left is ready, some tag waits in vain or every one waits for another one that is left. */
  lemma StuckHasReason(u: Known, tags0: set<Tag>, tags: set<Tag>, applied: seq<Tag>)
    requires Audited(u.depends) && u.untags !! tags0 && InOrder(u, tags0, applied) && tags == TagsAfter(u, tags0, applied)
    requires Stuck(u, tags, Left(u, tags0, applied))
    ensures HasCycle(u, tags0) || exists t :: Hopeless(u, tags0, t)
  {
    hide InOrder, IsCycle, TagsAfter, Elems, Due, Waits, Hopeless, IsReady, IsPath, Audited;
    var left := Left(u, tags0, applied);
    assert applied[..|applied|] == applied;
    Growing(u, tags0, applied, |applied|);
    if forall t :: !Hopeless(u, tags0, t) {
      forall t | t in left
        ensures Waits(u.depends, left, t)
      {
        Waiting(u, tags0, tags, applied, t);
      }
      var t :| t in left;
      NoElems(t);
      ShortPath(u.depends, t);
      var c := FindCycle(u.depends, left, [t]);
      assert Elems(c) <= Due(u, tags0);
    }
  }

  lemma NoElems(t: Tag)
    ensures Elems([]) == {} && Elems([t]) == {t}
  {
  }

  lemma Waiting(u: Known, tags0: set<Tag>, tags: set<Tag>, applied: seq<Tag>, t: Tag)
    requires Audited(u.depends) && u.untags !! tags0 && tags == tags0 + Elems(applied)
    requires t in Left(u, tags0, applied) && !IsReady(u.depends, t, tags) && !Hopeless(u, tags0, t)
    ensures Waits(u.depends, Left(u, tags0, applied), t)
  {
    hide Elems;
    var d :| d in u.depends[t] && d !in tags;
    assert d in Left(u, tags0, applied);
  }

  ghost predicate Waits(depends: map<Tag, seq<Tag>>, left: set<Tag>, t: Tag) {
    t in depends && exists d :: d in depends[t] && d in left
  }

  /** Each tag of a path depends on the next one. */
  ghost predicate IsPath(depends: map<Tag, seq<Tag>>, path: seq<Tag>) {
    |path| > 0 && forall i :: 0 <= i < |path| - 1 ==> path[i] in depends && path[i + 1] in depends[path[i]]
  }

  /** Follow dependencies inside a finite set until a tag repeats. */
  lemma {:induction false} FindCycle(depends: map<Tag, seq<Tag>>, left: set<Tag>, path: seq<Tag>) returns (c: seq<Tag>)
    requires forall t :: t in left ==> Waits(depends, left, t)
    requires |path| > 0 && IsPath(depends, path) && Elems(path) <= left
    ensures IsCycle(depends, c) && Elems(c) <= left
    decreases left - Elems(path)
  {
    hide IsPath, IsCycle;
    var last := path[|path| - 1];
    assert last in Elems(path) && Waits(depends, left, last);
    var d :| d in depends[last] && d in left;
    if d in path {
      c := CloseCycle(depends, path, d, left);
    } else {
      ElemsNext(path, d);
      PathNext(depends, path, d);
      assert d in left - Elems(path);
      c := FindCycle(depends, left, path + [d]);
    }
  }

  lemma ShortPath(depends: map<Tag, seq<Tag>>, t: Tag)
    ensures IsPath(depends, [t])
  {
  }

  lemma PathNext(depends: map<Tag, seq<Tag>>, path: seq<Tag>, d: Tag)
    requires IsPath(depends, path) && path[|path| - 1] in depends && d in depends[path[|path| - 1]]
    ensures IsPath(depends, path + [d])
  {
  }

  lemma CloseCycle(depends: map<Tag, seq<Tag>>, path: seq<Tag>, d: Tag, left: set<Tag>) returns (c: seq<Tag>)
    requires IsPath(depends, path) && Elems(path) <= left && d in path
    requires path[|path| - 1] in depends && d in depends[path[|path| - 1]]
    ensures IsCycle(depends, c) && Elems(c) <= left
  {
    var i :| 0 <= i < |path| && path[i] == d;
    c := path[i..];
    assert forall j :: 0 <= j < |c| ==> c[j] == path[i + j];
    assert forall t :: t in c ==> t in Elems(path);
  }

  // ----- loading

  /** The scripts in `seen` that declare that `t` depends on them. */
  ghost function Forward(scripts: map<Tag, Script>, seen: set<Tag>, t: Tag): set<Tag> {
    set u | u in scripts && u in seen && t in scripts[u].fwdDepends
  }

  /** The dependencies of every tag: its own, and those declared by the scripts in `seen`. */
  ghost predicate Resolved(scripts: map<Tag, Script>, seen: set<Tag>, depends: map<Tag, seq<Tag>>) {
    && depends.Keys == scripts.Keys
    && forall t :: t in scripts ==> Elems(depends[t]) == Elems(scripts[t].depends) + Forward(scripts, seen, t)
  }

  /** The script names only known tags. */
  ghost predicate Names(scripts: map<Tag, Script>, t: Tag)
    requires t in scripts
  {
    Elems(scripts[t].depends) <= scripts.Keys && Elems(scripts[t].fwdDepends) <= scripts.Keys
  }

  /** Element by element: `u` is a dependency of `t` exactly if either script says so. */
  lemma ResolvedMeans(scripts: map<Tag, Script>, depends: map<Tag, seq<Tag>>)
    requires Resolved(scripts, scripts.Keys, depends)
    ensures depends.Keys == scripts.Keys
    ensures forall t, u :: t in scripts ==>
              (u in depends[t] <==> u in scripts[t].depends || (u in scripts && t in scripts[u].fwdDepends))
  {
    hide Elems, Forward;
    forall t, u | t in scripts
      ensures u in depends[t] <==> u in scripts[t].depends || (u in scripts && t in scripts[u].fwdDepends)
    {
      SumMeans(scripts, depends[t], t, u);
    }
  }

  lemma SumMeans(scripts: map<Tag, Script>, ds: seq<Tag>, t: Tag, u: Tag)
    requires t in scripts && Elems(ds) == Elems(scripts[t].depends) + Forward(scripts, scripts.Keys, t)
    ensures u in ds <==> u in scripts[t].depends || (u in scripts && t in scripts[u].fwdDepends)
  {
    assert u in ds <==> u in Elems(ds);
  }

  lemma NamesMeans(scripts: map<Tag, Script>, t: Tag)
    requires t in scripts
    ensures Names(scripts, t)
       <==> (forall d :: d in scripts[t].depends ==> d in scripts) && forall d :: d in scripts[t].fwdDepends ==> d in scripts
  {
    assert forall d :: d in scripts[t].depends <==> d in Elems(scripts[t].depends);
    assert forall d :: d in scripts[t].fwdDepends <==> d in Elems(scripts[t].fwdDepends);
  }

  /** Add `t` to the dependencies of everything it declares to depend on it. */
  method Resolve(scripts: map<Tag, Script>, ghost seen: set<Tag>, depends0: map<Tag, seq<Tag>>, t: Tag)
    returns (ok: bool, depends: map<Tag, seq<Tag>>)
    requires t in scripts && Resolved(scripts, seen, depends0)
    ensures ok <==> Elems(scripts[t].fwdDepends) <= scripts.Keys
    ensures ok ==> Resolved(scripts, seen + {t}, depends)
  {
    hide Resolved, PartResolved;
    depends := depends0;
    var fwd, i := scripts[t].fwdDepends, 0;
    PartStart(scripts, seen, depends0, t);
    while i < |fwd|
      invariant 0 <= i <= |fwd| && PartResolved(scripts, depends0, depends, t, fwd, i)
    {
      if fwd[i] !in scripts {
        assert fwd[i] in Elems(fwd);
        return false, depends;
      }
      PartNext(scripts, depends0, depends, t, fwd, i);
      depends := depends[fwd[i] := depends[fwd[i]] + [t]];
      i := i + 1;
    }
    PartEnd(scripts, seen, depends0, depends, t);
    return true, depends;
  }

  /** The first `i` forward dependencies of `t` are turned around. */
  ghost predicate PartResolved(scripts: map<Tag, Script>, depends0: map<Tag, seq<Tag>>, depends: map<Tag, seq<Tag>>,
                               t: Tag, fwd: seq<Tag>, i: nat) {
    && i <= |fwd| && depends.Keys == depends0.Keys == scripts.Keys && Elems(fwd[..i]) <= scripts.Keys
    && forall x :: x in scripts ==> Elems(depends[x]) == Elems(depends0[x]) + if x in fwd[..i] then {t} else {}
  }

  lemma PartStart(scripts: map<Tag, Script>, seen: set<Tag>, depends: map<Tag, seq<Tag>>, t: Tag)
    requires t in scripts && Resolved(scripts, seen, depends)
    ensures PartResolved(scripts, depends, depends, t, scripts[t].fwdDepends, 0)
  {
    hide Elems;
    assert Elems(scripts[t].fwdDepends[..0]) == {} by { NoElems(t); }
  }

  lemma PartNext(scripts: map<Tag, Script>, depends0: map<Tag, seq<Tag>>, depends: map<Tag, seq<Tag>>, t: Tag, fwd: seq<Tag>, i: nat)
    requires PartResolved(scripts, depends0, depends, t, fwd, i) && i < |fwd| && fwd[i] in scripts
    ensures fwd[i] in depends
    ensures PartResolved(scripts, depends0, depends[fwd[i] := depends[fwd[i]] + [t]], t, fwd, i + 1)
  {
    hide Elems;
    assert fwd[..i + 1] == fwd[..i] + [fwd[i]];
    ElemsNext(fwd[..i], fwd[i]);
    ElemsNext(depends[fwd[i]], t);
  }

  lemma PartEnd(scripts: map<Tag, Script>, seen: set<Tag>, depends0: map<Tag, seq<Tag>>, depends: map<Tag, seq<Tag>>, t: Tag)
    requires t in scripts && Resolved(scripts, seen, depends0)
    requires PartResolved(scripts, depends0, depends, t, scripts[t].fwdDepends, |scripts[t].fwdDepends|)
    ensures Resolved(scripts, seen + {t}, depends) && Elems(scripts[t].fwdDepends) <= scripts.Keys
  {
    hide Elems, Forward;
    var fwd := scripts[t].fwdDepends;
    assert fwd[..|fwd|] == fwd;
    forall x | x in scripts
      ensures Elems(depends[x]) == Elems(scripts[x].depends) + Forward(scripts, seen + {t}, x)
    {
      ForwardNext(scripts, seen, t, x);
    }
  }

  lemma ForwardNext(scripts: map<Tag, Script>, seen: set<Tag>, t: Tag, x: Tag)
    requires t in scripts
    ensures Forward(scripts, seen + {t}, x) == Forward(scripts, seen, x) + if x in scripts[t].fwdDepends then {t} else {}
  {
  }

  /** All dependencies of `t` are known. */
  method Audit(scripts: map<Tag, Script>, deps: seq<Tag>) returns (ok: bool)
    ensures ok <==> Elems(deps) <= scripts.Keys
  {
    var i := 0;
    while i < |deps|
      invariant 0 <= i <= |deps| && forall j :: 0 <= j < i ==> deps[j] in scripts
    {
      if deps[i] !in scripts {
        assert deps[i] in Elems(deps);
        return false;
      }
      i := i + 1;
    }
    return true;
  }

  // ----- legacy versions

  ghost function VersionsFrom(legacy: map<nat, Tag>, i: nat): set<nat> {
    set v | v in legacy && v >= i
  }

  /** The first version from `i` on that no script has. */
  ghost function FirstGap(legacy: map<nat, Tag>, i: nat): (n: nat)
    ensures n >= i && n !in legacy && forall v :: i <= v < n ==> v in legacy
    decreases VersionsFrom(legacy, i)
  {
    if i !in legacy then i
    else
      assert i in VersionsFrom(legacy, i) && i !in VersionsFrom(legacy, i + 1);
      FirstGap(legacy, i + 1)
  }

  /** The scripts after versions 3 to `n - 1` have been made to depend on the version before, and on nothing else. */
  ghost function Linked(scripts: map<Tag, Script>, legacy: map<nat, Tag>, n: nat): (r: map<Tag, Script>)
    requires legacy.Values <= scripts.Keys
    ensures r.Keys == scripts.Keys
  {
    if n <= 3 || n - 1 !in legacy || n - 2 !in legacy then scripts
    else
      assert legacy[n - 1] in legacy.Values;
      var s := Linked(scripts, legacy, n - 1);
      s[legacy[n - 1] := s[legacy[n - 1]].(depends := [legacy[n - 2]])]
  }

  ghost predicate OnePerVersion(legacy: map<nat, Tag>) {
    forall i, j :: i in legacy && j in legacy && i != j ==> legacy[i] != legacy[j]
  }

  lemma Different(legacy: map<nat, Tag>, i: nat, j: nat)
    requires OnePerVersion(legacy) && i in legacy && j in legacy && i != j
    ensures legacy[i] != legacy[j]
  {
  }

  /** With one script per version, each version from 3 on depends on exactly the one before it; other scripts are unchanged. */
  lemma {:induction false} LinkedChain(scripts: map<Tag, Script>, legacy: map<nat, Tag>, n: nat, v: nat, t: Tag)
    requires legacy.Values <= scripts.Keys && 2 in legacy && (forall i :: 3 <= i < n ==> i in legacy) && t in scripts
    requires OnePerVersion(legacy)
    ensures 3 <= v < n ==> legacy[v] in scripts && Linked(scripts, legacy, n)[legacy[v]].depends == [legacy[v - 1]]
    ensures (forall i :: 3 <= i < n ==> legacy[i] != t) ==> Linked(scripts, legacy, n)[t] == scripts[t]
  {
    hide OnePerVersion;
    if n > 3 {
      assert legacy[n - 1] in legacy.Values;
      LinkedChain(scripts, legacy, n - 1, v, t);
      if 3 <= v < n - 1 {
        Different(legacy, v, n - 1);
      }
    }
  }

  method LinkLegacy(scripts: map<Tag, Script>, legacy: map<nat, Tag>) returns (ok: bool, linked: map<Tag, Script>)
    requires legacy.Values <= scripts.Keys
    ensures ok <==> 3 !in legacy || 2 in legacy
    ensures ok ==> linked == Linked(scripts, legacy, FirstGap(legacy, 3)) && linked.Keys == scripts.Keys
  {
    linked := scripts;
    var i := 3;
    while i in legacy
      invariant 3 <= i && FirstGap(legacy, i) == FirstGap(legacy, 3) && (i > 3 ==> 2 in legacy && i - 1 in legacy)
      invariant linked == Linked(scripts, legacy, i) && linked.Keys == scripts.Keys
      decreases VersionsFrom(legacy, i)
    {
      if i - 1 !in legacy {
        return false, linked;
      }
      assert i in VersionsFrom(legacy, i) && i !in VersionsFrom(legacy, i + 1);
      assert legacy[i] in legacy.Values;
      linked := linked[legacy[i] := linked[legacy[i]].(depends := [legacy[i - 1]])];
      i := i + 1;
    }
    ok := true;
  }

  /**
   * Legacy versions are chained, forward dependencies turned around and all dependencies audited, script by script
   * in any order. Loading succeeds exactly if every tag and version named exists; then `Upgrade` can be called with
   * the result.
   */
  method LoadAll(scripts: map<Tag, Script>, legacy: map<nat, Tag>) returns (r: Loaded)
    requires legacy.Values <= scripts.Keys
    ensures var s := Linked(scripts, legacy, FirstGap(legacy, 3));
            && (r.Ready? <==> (3 !in legacy || 2 in legacy)
                              && (forall t, d :: t in s && d in s[t].depends ==> d in s)
                              && forall t, d :: t in s && d in s[t].fwdDepends ==> d in s)
            && (r.Ready? ==> r.depends.Keys == s.Keys && Audited(r.depends))
            && (r.Ready? ==> forall t, u :: t in s ==>
                  (u in r.depends[t] <==> u in s[t].depends || (u in s && t in s[u].fwdDepends)))
  {
    hide Resolved, Names, Linked, FirstGap, Audited;
    var ok, linked := LinkLegacy(scripts, legacy);
    if !ok {
      return Rejected;
    }
    r := ResolveAll(linked);
    AllNames(linked);
    if r.Ready? {
      ResolvedMeans(linked, r.depends);
    }
  }

  method ResolveAll(scripts: map<Tag, Script>) returns (r: Loaded)
    ensures r.Ready? <==> forall t :: t in scripts ==> Names(scripts, t)
    ensures r.Ready? ==> Resolved(scripts, scripts.Keys, r.depends) && Audited(r.depends)
  {
    hide Resolved, Names;
    var depends := map t | t in scripts :: scripts[t].depends;
    NothingSeen(scripts, depends);
    var rest := scripts.Keys;
    while rest != {}
      invariant rest <= scripts.Keys && Resolved(scripts, scripts.Keys - rest, depends)
      invariant forall t :: t in scripts.Keys - rest ==> Names(scripts, t)
      decreases |rest|
    {
      var t :| t in rest;
      var ok;
      ok, depends := Resolve(scripts, scripts.Keys - rest, depends, t);
      if !ok {
        NotNames(scripts, t);
        return Rejected;
      }
      assert scripts.Keys - rest + {t} == scripts.Keys - (rest - {t});
      AuditMeans(scripts, scripts.Keys - (rest - {t}), depends, t);
      ok := Audit(scripts, depends[t]);
      if !ok {
        return Rejected;
      }
      Smaller(rest, {t});
      rest := rest - {t};
    }
    assert scripts.Keys - rest == scripts.Keys;
    AllAudited(scripts, depends);
    return Ready(depends);
  }

  lemma AllNames(scripts: map<Tag, Script>)
    ensures (forall t :: t in scripts ==> Names(scripts, t))
       <==> (forall t, d :: t in scripts && d in scripts[t].depends ==> d in scripts)
            && forall t, d :: t in scripts && d in scripts[t].fwdDepends ==> d in scripts
  {
    hide Names;
    forall t | t in scripts
      ensures Names(scripts, t)
         <==> (forall d :: d in scripts[t].depends ==> d in scripts) && forall d :: d in scripts[t].fwdDepends ==> d in scripts
    {
      NamesMeans(scripts, t);
    }
  }

  lemma NothingSeen(scripts: map<Tag, Script>, depends: map<Tag, seq<Tag>>)
    requires depends == map t | t in scripts :: scripts[t].depends
    ensures Resolved(scripts, scripts.Keys - scripts.Keys, depends)
  {
  }

  lemma NotNames(scripts: map<Tag, Script>, t: Tag)
    requires t in scripts && !(Elems(scripts[t].fwdDepends) <= scripts.Keys)
    ensures !Names(scripts, t)
  {
  }

  lemma AuditMeans(scripts: map<Tag, Script>, seen: set<Tag>, depends: map<Tag, seq<Tag>>, t: Tag)
    requires Resolved(scripts, seen, depends) && t in scripts && Elems(scripts[t].fwdDepends) <= scripts.Keys
    ensures t in depends && (Elems(depends[t]) <= scripts.Keys <==> Names(scripts, t))
  {
  }

  lemma AllAudited(scripts: map<Tag, Script>, depends: map<Tag, seq<Tag>>)
    requires Resolved(scripts, scripts.Keys, depends) && forall t :: t in scripts ==> Names(scripts, t)
    ensures Audited(depends)
  {
    forall t, d | t in depends && d in depends[t]
      ensures d in depends
    {
      assert d in Elems(depends[t]) && Names(scripts, t);
    }
  }
}
