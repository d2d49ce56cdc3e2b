/** Removal of virtual machines, their disks, and the images no disk uses any more. */
module VmRemoval {
  import opened Options

  /** A block device reference of a machine; only VirtualDisks are removed with it. */
  datatype BlockDevice = BlockDevice(isDisk: bool, name: string)

  // ----- What a removal should do

  /** A disk maps to the ClusterVirtualImage it was made from, if any. */
  datatype World = World(vms: map<string, seq<BlockDevice>>, disks: map<string, Option<string>>, images: set<string>)

  function DiskNames(devices: seq<BlockDevice>): set<string> {
    set b <- devices | b.isDisk :: b.name
  }

  /** The disks of a machine, none if it does not exist. */
  function DisksOfOne(w: World, n: string): set<string> {
    if n in w.vms then DiskNames(w.vms[n]) else {}
  }

  function DisksOf(w: World, names: set<string>): set<string> {
    set n <- names, d <- DisksOfOne(w, n) :: d
  }

  type Disks = map<string, Option<string>>

  /** Some disk of `among` was made from the image. */
  predicate Refer(disks: Disks, among: set<string>, image: string) {
    exists d <- among :: d in disks && disks[d] == Some(image)
  }

  /** Images that some disk of `gone` was made from and that no other disk was. */
  function Orphans(w: World, gone: set<string>): set<string> {
    set i <- w.images | Refer(w.disks, gone, i) && !Refer(w.disks - gone, (w.disks - gone).Keys, i)
  }

  /** The outcome depends on the set of names only, not on their order or repetition. */
  function Removed(w: World, names: set<string>): World {
    var gone := DisksOf(w, names);
    World(w.vms - names, w.disks - gone, w.images - Orphans(w, gone))
  }

  function AsSet(names: seq<string>): set<string> {
    set n <- names
  }

  lemma DisksOfUnion(w: World, a: set<string>, n: string)
    ensures DisksOf(w, a + {n}) == DisksOf(w, a) + DisksOfOne(w, n)
  {
  }

  lemma ReferUnion(disks: Disks, gone: set<string>, more: set<string>, i: string)
    ensures Refer(disks, gone + more, i) <==> Refer(disks, gone, i) || Refer(disks - gone, more, i)
  {
    if Refer(disks, gone + more, i) {
      var d :| d in gone + more && d in disks && disks[d] == Some(i);
      assert d in gone || d in disks - gone;
    }
    if Refer(disks, gone, i) {
      var d :| d in gone && d in disks && disks[d] == Some(i);
      assert d in gone + more;
    }
    if Refer(disks - gone, more, i) {
      var d :| d in more && d in disks - gone && (disks - gone)[d] == Some(i);
      assert d in gone + more && disks[d] == Some(i);
    }
  }

  lemma ReferSplit(disks: Disks, more: set<string>, i: string)
    ensures Refer(disks, disks.Keys, i) <==> Refer(disks, more, i) || Refer(disks - more, (disks - more).Keys, i)
  {
    ReferUnion(disks, more, (disks - more).Keys, i);
    if Refer(disks, disks.Keys, i) {
      var d :| d in disks && disks[d] == Some(i);
      assert d in more + (disks - more).Keys;
    }
  }

  /** An image is orphaned by both removals together exactly when it is by the first or then the second. */
  lemma OrphansOfUnion(w: World, gone: set<string>, more: set<string>, i: string)
    requires i in w.images
    ensures i in Orphans(w, gone + more) <==>
            i in Orphans(w, gone) || i in Orphans(World(w.vms, w.disks - gone, w.images - Orphans(w, gone)), more)
  {
    assert w.disks - gone - more == w.disks - (gone + more);
    ReferUnion(w.disks, gone, more, i);
    ReferSplit(w.disks - gone, more, i);
  }

  /** Removing one more machine from the outcome is removing all of them at once. */
  lemma RemovedOneMore(w: World, a: set<string>, n: string)
    ensures Removed(Removed(w, a), {n}) == Removed(w, a + {n})
  {
    var w1 := Removed(w, a);
    var gone, more := DisksOf(w, a), DisksOf(w1, {n});
    DisksOfUnion(w, a, n);
    assert more == DisksOfOne(w1, n);
    assert gone + more == DisksOf(w, a + {n});
    assert w.vms - a - {n} == w.vms - (a + {n});
    assert w.disks - gone - more == w.disks - (gone + more);
    forall i | i in w.images
      ensures i in Orphans(w, gone + more) <==> i in Orphans(w, gone) || i in Orphans(w1, more)
    {
      OrphansOfUnion(w, gone, more, i);
    }
    assert w1.images - Orphans(w1, more) == w.images - Orphans(w, gone + more);
  }

  // ----- What a removal takes away

  /** A named machine refers to the disk. */
  predicate Attached(w: World, names: set<string>, d: string) {
    exists n <- names :: n in w.vms && BlockDevice(true, d) in w.vms[n]
  }

  lemma AttachedIsDiskOf(w: World, names: set<string>, d: string)
    ensures d in DisksOf(w, names) <==> Attached(w, names, d)
  {
    if Attached(w, names, d) {
      var n :| n in names && n in w.vms && BlockDevice(true, d) in w.vms[n];
      assert d in DisksOfOne(w, n);
    }
  }

  /** Machines go if they are named, disks if a named machine refers to them as disks; nothing else changes. */
  lemma RemovedExactly(w: World, names: set<string>)
    ensures forall n :: n in Removed(w, names).vms <==> n in w.vms && n !in names
    ensures forall n <- Removed(w, names).vms :: Removed(w, names).vms[n] == w.vms[n]
    ensures forall d :: d in Removed(w, names).disks <==> d in w.disks && !Attached(w, names, d)
    ensures forall d <- Removed(w, names).disks :: Removed(w, names).disks[d] == w.disks[d]
  {
    forall d ensures d in DisksOf(w, names) <==> Attached(w, names, d) { AttachedIsDiskOf(w, names, d); }
  }

  /** An image goes if a disk that goes was made from it and no disk that stays was. */
  lemma ImageGoesExactly(w: World, names: set<string>, i: string)
    ensures i in w.images && i !in Removed(w, names).images <==>
              && i in w.images
              && (exists d <- w.disks :: Attached(w, names, d) && w.disks[d] == Some(i))
              && (forall d <- w.disks :: w.disks[d] == Some(i) ==> Attached(w, names, d))
    ensures i in Removed(w, names).images ==> i in w.images
  {
    var gone := DisksOf(w, names);
    forall d ensures d in gone <==> Attached(w, names, d) { AttachedIsDiskOf(w, names, d); }
    assert Refer(w.disks, gone, i) <==> exists d <- w.disks :: Attached(w, names, d) && w.disks[d] == Some(i) by {
      if d :| d in w.disks && Attached(w, names, d) && w.disks[d] == Some(i) { assert d in gone; }
    }
    assert Refer(w.disks - gone, (w.disks - gone).Keys, i) <==>
           !forall d <- w.disks :: w.disks[d] == Some(i) ==> Attached(w, names, d) by {
      if d :| d in w.disks && w.disks[d] == Some(i) && !Attached(w, names, d) { assert d in w.disks - gone; }
    }
  }

  // ----- The namespace as the API serves it

  /** An object whose deletion is under way is found by `deleting` more reads after the next one. */
  datatype Object<T> = Object(spec: T, deleting: Option<nat>)

  type Objects<T> = map<string, Object<T>>

  function Specs<T>(m: Objects<T>): map<string, T> {
    map n <- m :: m[n].spec
  }

  /** A read brings the end of a deletion closer. */
  function AfterRead<T>(m: Objects<T>, name: string): Objects<T> {
    if name !in m || m[name].deleting.None? then m
    else if m[name].deleting.value == 0 then m - {name}
    else m[name := m[name].(deleting := Some(m[name].deleting.value - 1))]
  }

  /** A deletion ends after `delay` reads, at once if that is 0; deleting twice changes nothing. */
  function AfterDelete<T>(m: Objects<T>, name: string, delay: nat): Objects<T> {
    if name !in m || m[name].deleting.Some? then m
    else if delay == 0 then m - {name}
    else m[name := m[name].(deleting := Some(delay - 1))]
  }

  predicate Doomed<T>(m: Objects<T>, name: string) {
    name in m ==> m[name].deleting.Some?
  }

  /** How many reads may still find the object. */
  function ReadsLeft<T>(m: Objects<T>, name: string): nat {
    if name in m && m[name].deleting.Some? then m[name].deleting.value + 1 else 0
  }

  /** From a to b only objects named in s changed, and those only by going away. */
  ghost predicate Fades<T>(a: Objects<T>, b: Objects<T>, s: set<string>) {
    && (forall n <- b :: n in a && b[n].spec == a[n].spec)
    && (forall n <- a :: n !in s ==> n in b && b[n] == a[n])
  }

  lemma FadedSpecs<T>(a: Objects<T>, b: Objects<T>, s: set<string>)
    requires Fades(a, b, s) && forall n <- s :: n !in b
    ensures Specs(b) == Specs(a) - s
  {
  }

  /** Whatever already went away does not matter to one who removes all of s. */
  lemma SpecsOutside<T>(a: Objects<T>, b: Objects<T>, s: set<string>)
    requires Fades(a, b, s)
    ensures Specs(b) - s == Specs(a) - s
  {
  }

  lemma {:induction false} MostReads<T>(m: Objects<T>, s: set<string>) returns (bound: nat)
    ensures forall n <- s :: ReadsLeft(m, n) <= bound
    decreases |s|
  {
    if s == {} {
      bound := 0;
    } else {
      var x :| x in s;
      bound := MostReads(m, s - {x});
      if ReadsLeft(m, x) > bound { bound := ReadsLeft(m, x); }
    }
  }

  class Namespace {
    var vms: Objects<seq<BlockDevice>>
    var disks: Objects<Option<string>>
    var images: set<string>
    const vmDelay: string -> nat
    const diskDelay: string -> nat

    function View(): World
      reads this
    {
      World(Specs(vms), Specs(disks), images)
    }

    // ----- API calls

    method GetVm(name: string) returns (vm: Option<seq<BlockDevice>>)
      modifies this`vms
      ensures vms == AfterRead(old(vms), name)
      ensures vm == if name in old(vms) then Some(old(vms)[name].spec) else None
    {
      vm := if name in vms then Some(vms[name].spec) else None;
      vms := AfterRead(vms, name);
    }

    method GetDisk(name: string) returns (disk: Option<Option<string>>)
      modifies this`disks
      ensures disks == AfterRead(old(disks), name)
      ensures disk == if name in old(disks) then Some(old(disks)[name].spec) else None
    {
      disk := if name in disks then Some(disks[name].spec) else None;
      disks := AfterRead(disks, name);
    }

    // ----- The steps of RemoveVM

    /** Step 2: the images behind the disks that still exist. */
    method CollectImages(vdNames: seq<string>) returns (names: set<string>)
      modifies this`disks
      ensures Fades(old(disks), disks, AsSet(vdNames))
      ensures forall i :: i in names <==> Refer(Specs(old(disks)), AsSet(vdNames), i)
    {
      names := {};
      for k := 0 to |vdNames|
        invariant Fades(old(disks), disks, AsSet(vdNames[..k]))
        invariant forall i :: i in names <==> Refer(Specs(old(disks)), AsSet(vdNames[..k]), i)
      {
        var disk := GetDisk(vdNames[k]);
        AsSetOneMore(vdNames, k);
        ReferOneMore(Specs(old(disks)), AsSet(vdNames[..k]), vdNames[k]);
        if disk.Some? && disk.value.Some? {
          names := names + {disk.value.value};
        }
      }
      assert vdNames[..|vdNames|] == vdNames;
    }

    /** Step 3: delete the machine and poll until it is gone. */
    method DeleteVm(name: string)
      modifies this`vms
      ensures Specs(vms) == Specs(old(vms)) - {name}
    {
      vms := AfterDelete(vms, name, vmDelay(name));
      var found := true;
      while found
        invariant !found ==> name !in vms
        invariant Doomed(vms, name) && Fades(old(vms), vms, {name})
        decreases ReadsLeft(vms, name), found
      {
        var vm := GetVm(name);
        found := vm.Some?;
      }
      FadedSpecs(old(vms), vms, {name});
    }

    /** Step 4: ask for every disk to be deleted. */
    method DeleteDisks(vdNames: seq<string>) returns (deleted: set<string>)
      modifies this`disks
      ensures deleted == AsSet(vdNames) && Fades(old(disks), disks, deleted)
      ensures forall d <- deleted :: Doomed(disks, d)
    {
      deleted := {};
      for k := 0 to |vdNames|
        invariant deleted == AsSet(vdNames[..k]) && Fades(old(disks), disks, deleted)
        invariant forall d <- deleted :: Doomed(disks, d)
      {
        disks := AfterDelete(disks, vdNames[k], diskDelay(vdNames[k]));
        AsSetOneMore(vdNames, k);
        deleted := deleted + {vdNames[k]};
      }
      assert vdNames[..|vdNames|] == vdNames;
    }

    /** One sweep of the poll loop over the disks still tracked. */
    method SweepDisks(tracked: set<string>, ghost bound: nat) returns (left: set<string>)
      requires forall d <- tracked :: Doomed(disks, d) && ReadsLeft(disks, d) <= bound
      modifies this`disks
      ensures Fades(old(disks), disks, tracked)
      ensures left <= tracked && (forall d <- tracked :: d in disks ==> d in left)
      ensures left != {} ==> bound > 0
      ensures forall d <- left :: Doomed(disks, d) && ReadsLeft(disks, d) + 1 <= bound
    {
      left := {};
      var todo := tracked;
      while todo != {}
        invariant todo <= tracked && left <= tracked - todo
        invariant Fades(old(disks), disks, tracked)
        invariant forall d <- tracked :: d in disks ==> d in left + todo
        invariant forall d <- todo :: Doomed(disks, d) && ReadsLeft(disks, d) <= bound
        invariant forall d <- left :: Doomed(disks, d) && ReadsLeft(disks, d) + 1 <= bound
      {
        var name :| name in todo;
        var disk := GetDisk(name);
        todo := todo - {name};
        if disk.Some? {
          left := left + {name};
        }
      }
    }

    /** Steps 4 and 4.5: delete the disks and poll until all of them are gone. */
    method RemoveDisks(vdNames: seq<string>)
      modifies this`disks
      ensures Specs(disks) == Specs(old(disks)) - AsSet(vdNames)
    {
      var tracked := DeleteDisks(vdNames);
      ghost var bound := MostReads(disks, tracked);
      while tracked != {}
        invariant tracked <= AsSet(vdNames) && Fades(old(disks), disks, AsSet(vdNames))
        invariant forall d <- AsSet(vdNames) :: d in disks ==> d in tracked
        invariant forall d <- tracked :: Doomed(disks, d) && ReadsLeft(disks, d) <= bound
        decreases bound, |tracked|
      {
        tracked := SweepDisks(tracked, bound);
        if tracked == {} {
          break;
        }
        bound := bound - 1;
      }
      FadedSpecs(old(disks), disks, AsSet(vdNames));
    }

    /** Step 5: delete the collected images that no disk of the namespace uses. */
    method RemoveImages(names: set<string>)
      modifies this`images
      ensures images == old(images) - (set i <- names | !Refer(View().disks, View().disks.Keys, i))
    {
      var inUse := set d <- disks | disks[d].spec.Some? :: disks[d].spec.value;
      var todo := names;
      while todo != {}
        invariant todo <= names && images == old(images) - (set i <- names - todo | i !in inUse)
      {
        var name :| name in todo;
        todo := todo - {name};
        if name !in inUse {
          images := images - {name};
        }
      }
      ghost var v := View().disks;
      assert forall i :: i in inUse <==> Refer(v, v.Keys, i) by {
        forall i ensures i in inUse <==> Refer(v, v.Keys, i) {
          if i in inUse {
            var d :| d in disks && disks[d].spec == Some(i);
            assert d in v && v[d] == Some(i);
          }
        }
      }
    }

    method DiskRefs(devices: seq<BlockDevice>) returns (vdNames: seq<string>)
      ensures AsSet(vdNames) == DiskNames(devices)
    {
      vdNames := [];
      for k := 0 to |devices|
        invariant AsSet(vdNames) == DiskNames(devices[..k])
      {
        assert devices[..k + 1] == devices[..k] + [devices[k]];
        assert DiskNames(devices[..k + 1]) == DiskNames(devices[..k]) + if devices[k].isDisk then {devices[k].name} else {};
        if devices[k].isDisk {
          assert AsSet(vdNames + [devices[k].name]) == AsSet(vdNames) + {devices[k].name};
          vdNames := vdNames + [devices[k].name];
        }
      }
      assert devices[..|devices|] == devices;
    }

    /** Removes one machine, its disks, and the images nothing else uses; a missing machine is skipped. */
    method RemoveVM(vmName: string)
      modifies this
      ensures View() == Removed(old(View()), {vmName})
    {
      ghost var w := View();
      var vm := GetVm(vmName);
      RemovedOne(w, vmName);
      if vm.None? {
        return;
      }
      SpecsOutside(old(vms), vms, {vmName});
      var vdNames := DiskRefs(vm.value);
      var cvmiNames := CollectImages(vdNames);
      SpecsOutside(old(disks), disks, AsSet(vdNames));
      DeleteVm(vmName);
      RemoveDisks(vdNames);
      RemoveImages(cvmiNames);
      OrphansAre(w, AsSet(vdNames), cvmiNames);
    }

    /** The named machines, in any order: the outcome is that of removing them at once. */
    method RemoveAllVMs(names: seq<string>)
      modifies this
      ensures View() == Removed(old(View()), AsSet(names))
    {
      ghost var w := View();
      RemovedNone(w);
      for k := 0 to |names|
        invariant View() == Removed(w, AsSet(names[..k]))
      {
        RemovedOneMore(w, AsSet(names[..k]), names[k]);
        AsSetOneMore(names, k);
        RemoveVM(names[k]);
      }
      assert names[..|names|] == names;
    }
  }

  lemma AsSetOneMore(names: seq<string>, k: nat)
    requires k < |names|
    ensures AsSet(names[..k + 1]) == AsSet(names[..k]) + {names[k]}
  {
    assert names[..k + 1] == names[..k] + [names[k]];
  }

  lemma ReferOneMore(disks: Disks, among: set<string>, d: string)
    ensures forall i :: Refer(disks, among + {d}, i) <==> Refer(disks, among, i) || (d in disks && disks[d] == Some(i))
  {
    forall i ensures Refer(disks, among + {d}, i) <==> Refer(disks, among, i) || (d in disks && disks[d] == Some(i)) {
      if Refer(disks, among, i) {
        var e :| e in among && e in disks && disks[e] == Some(i);
        assert e in among + {d};
      }
    }
  }

  lemma RemovedOne(w: World, n: string)
    ensures n !in w.vms ==> Removed(w, {n}) == w
    ensures n in w.vms ==>
              var gone := DiskNames(w.vms[n]);
              Removed(w, {n}) == World(w.vms - {n}, w.disks - gone, w.images - Orphans(w, gone))
  {
    assert DisksOf(w, {n}) == DisksOfOne(w, n);
    if n !in w.vms { assert w.vms - {n} == w.vms && w.disks - {} == w.disks && Orphans(w, {}) == {}; }
  }

  lemma RemovedNone(w: World)
    ensures Removed(w, {}) == w
  {
    assert DisksOf(w, {}) == {} && Orphans(w, {}) == {};
    assert w.vms - {} == w.vms && w.disks - {} == w.disks;
  }

  /** The images collected before the disks go, less those still in use, are the orphans. */
  lemma OrphansAre(w: World, gone: set<string>, names: set<string>)
    requires forall i :: i in names <==> Refer(w.disks, gone, i)
    ensures w.images - Orphans(w, gone)
            == w.images - (set i <- names | !Refer(w.disks - gone, (w.disks - gone).Keys, i))
  {
  }
}
