/** The module loader of the boot loader: files are loaded with all they depend on, or not at all. */
module Modules {
  import opened Basics

  datatype Module = Module(name: string, version: int)

  datatype Depend = Depend(name: string, preferred: int, minimum: int, maximum: int)

  /** What a file on the disk holds, for the format that knows it. */
  datatype Image = Image(modules: seq<Module>, deps: seq<Depend>)

  const ENOENT: int := 2
  const EFTYPE: int := 79

  class PreloadedFile {
    const name: string
    const addr: int
    const size: int
    const modules: seq<Module>
    const deps: seq<Depend>
    var next: PreloadedFile?
    ghost var place: int      // on the list

    constructor (name: string, addr: int, size: int, image: Image)
      ensures this.name == name && this.addr == addr && this.size == size
      ensures modules == image.modules && deps == image.deps && next == null
    {
      this.name, this.addr, this.size, modules, deps, next := name, addr, size, image.modules, image.deps, null;
    }

    function End(): int { addr + size }
  }

  /** The module may stand for the dependency; version 0 does only when it is the preferred one. */
  predicate Permitted(m: Module, d: Depend) {
    m.name == d.name && (m.version == d.preferred || (d.minimum <= m.version <= d.maximum && m.version > 0))
  }

  /** A module of version 0 stands for a dependency only if that prefers version 0. */
  lemma VersionZero(name: string, d: Depend)
    ensures Permitted(Module(name, 0), d) <==> name == d.name && d.preferred == 0
  {
  }

  predicate Matches(m: Module, name: string, ver: Option<Depend>) {
    m.name == name && (ver.None? || Permitted(m, ver.value.(name := name)))
  }

  ghost predicate Provides(modules: seq<Module>, name: string, ver: Option<Depend>) {
    exists k :: 0 <= k < |modules| && Matches(modules[k], name, ver)
  }

  ghost predicate Available(list: seq<PreloadedFile>, name: string, ver: Option<Depend>) {
    exists i :: 0 <= i < |list| && Provides(list[i].modules, name, ver)
  }

  /** The best of a file's modules: the preferred version, or else the highest permitted. */
  ghost predicate Best(modules: seq<Module>, name: string, ver: Option<Depend>, m: Module) {
    && m in modules && Matches(m, name, ver)
    && (ver.Some? && m.version != ver.value.preferred ==>
          forall k :: 0 <= k < |modules| && Matches(modules[k], name, ver) ==>
            modules[k].version <= m.version && modules[k].version != ver.value.preferred)
  }

  /** The module of that name and a permitted version that a file has, if it has one. */
  method FindInFile(modules: seq<Module>, name: string, ver: Option<Depend>) returns (r: Option<Module>)
    ensures r.None? <==> !Provides(modules, name, ver)
    ensures r.Some? ==> Best(modules, name, ver, r.value)
  {
    var best, bestver := None, 0;
    for k := 0 to |modules|
      invariant best.None? ==> bestver == 0 && forall j :: 0 <= j < k ==> !Matches(modules[j], name, ver)
      invariant best.Some? ==>
        ver.Some? && best.value in modules && Matches(best.value, name, ver)
        && best.value.version == bestver > 0 && bestver != ver.value.preferred
      invariant best.Some? ==> forall j :: 0 <= j < k && Matches(modules[j], name, ver) ==>
        modules[j].version <= bestver && modules[j].version != ver.value.preferred
    {
      var mp := modules[k];
      if mp.name == name {
        if ver.None? {
          return Some(mp);
        }
        var mver := mp.version;
        if mver == ver.value.preferred {
          return Some(mp);
        }
        if mver >= ver.value.minimum && mver <= ver.value.maximum && mver > bestver {
          best := Some(mp);
          bestver := mver;
        }
      }
    }
    r := best;
  }

  ghost predicate Satisfied(list: seq<PreloadedFile>, d: Depend) {
    Available(list, d.name, Some(d))
  }

  /** Every dependency of the file is met by something in the list. */
  ghost predicate AllMet(list: seq<PreloadedFile>, f: PreloadedFile, n: int)
    requires n <= |f.deps|
  {
    forall j :: 0 <= j < n ==> Satisfied(list, f.deps[j])
  }

  /** Every file from place k on has its dependencies met. */
  ghost predicate Closed(list: seq<PreloadedFile>, k: int)
    requires 0 <= k
  {
    forall i :: k <= i < |list| ==> AllMet(list, list[i], |list[i].deps|)
  }

  lemma AvailableMore(list: seq<PreloadedFile>, more: seq<PreloadedFile>, name: string, ver: Option<Depend>)
    requires Available(list, name, ver)
    ensures Available(list + more, name, ver)
  {
    var i :| 0 <= i < |list| && Provides(list[i].modules, name, ver);
    assert (list + more)[i] == list[i];
  }

  lemma MetMore(list: seq<PreloadedFile>, more: seq<PreloadedFile>, f: PreloadedFile, n: int)
    requires n <= |f.deps| && AllMet(list, f, n)
    ensures AllMet(list + more, f, n)
  {
    forall j | 0 <= j < n ensures Satisfied(list + more, f.deps[j]) {
      AvailableMore(list, more, f.deps[j].name, Some(f.deps[j]));
    }
  }

  lemma ClosedMore(list: seq<PreloadedFile>, more: seq<PreloadedFile>, k: int)
    requires 0 <= k && Closed(list, k) && Closed(list + more, |list|)
    ensures Closed(list + more, k)
  {
    var all := list + more;
    forall i | k <= i < |all| ensures AllMet(all, all[i], |all[i].deps|) {
      if i < |list| {
        MetMore(list, more, list[i], |list[i].deps|);
      }
    }
  }

  ghost function Names(list: seq<PreloadedFile>): set<string> {
    set i | 0 <= i < |list| :: list[i].name
  }

  /** The files on the disk that are not on the list. */
  ghost function Missing(disk: map<string, Image>, list: seq<PreloadedFile>): set<string> {
    set name | name in disk && name !in Names(list)
  }

  /** Each of the files is once on the list, or once among those freed. */
  ghost predicate Accounted(loaded: set<PreloadedFile>, list: seq<PreloadedFile>, freed: seq<PreloadedFile>) {
    multiset(loaded) == multiset(list) + multiset(freed)
  }

  lemma AccountedMore(loaded: set<PreloadedFile>, list: seq<PreloadedFile>, freed: seq<PreloadedFile>, fp: PreloadedFile)
    requires Accounted(loaded, list, freed) && fp !in loaded
    ensures Accounted(loaded + {fp}, list + [fp], freed)
  {
    assert multiset(loaded + {fp}) == multiset(loaded) + multiset{fp};
    assert multiset(list + [fp]) == multiset(list) + multiset([fp]);
  }

  lemma AccountedFreed(loaded: set<PreloadedFile>, list: seq<PreloadedFile>, freed: seq<PreloadedFile>, n: nat)
    requires Accounted(loaded, list, freed) && n <= |list|
    ensures Accounted(loaded, list[..n], freed + list[n..])
  {
    assert list == list[..n] + list[n..];
    assert multiset(list) == multiset(list[..n] + list[n..]);
    assert multiset(list[..n] + list[n..]) == multiset(list[..n]) + multiset(list[n..]);
    assert multiset(freed + list[n..]) == multiset(freed) + multiset(list[n..]);
  }

  /** The file is what a format made of a file of that name. */
  ghost predicate FromDiskAt(disk: map<string, Image>, list: seq<PreloadedFile>, i: int)
    requires 0 <= i < |list|
  {
    var f := list[i];
    f.name in disk && f.modules == disk[f.name].modules && f.deps == disk[f.name].deps
  }

  ghost predicate FromDisk(disk: map<string, Image>, list: seq<PreloadedFile>) {
    forall i :: 0 <= i < |list| ==> FromDiskAt(disk, list, i)
  }

  /** Where a file format puts a file of that name when it is to go to that address, and its size. */
  type Format = (string, int) -> Option<(int, int)>

  /** The end of the first n files, which is where the next one is to go. */
  function EndOf(base: int, list: seq<PreloadedFile>, n: nat): int
    requires n <= |list|
  {
    if n == 0 then base else list[n - 1].addr + list[n - 1].size
  }

  ghost predicate LaidAt(format: Format, base: int, list: seq<PreloadedFile>, i: int)
    requires 0 <= i < |list|
  {
    format(list[i].name, EndOf(base, list, i)) == Some((list[i].addr, list[i].size))
  }

  /** Each file is where its format puts it when it is to go behind the one before. */
  ghost predicate Laid(format: Format, base: int, list: seq<PreloadedFile>) {
    forall i :: 0 <= i < |list| ==> LaidAt(format, base, list, i)
  }

  lemma LaidMore(format: Format, base: int, list: seq<PreloadedFile>, fp: PreloadedFile)
    requires Laid(format, base, list) && format(fp.name, EndOf(base, list, |list|)) == Some((fp.addr, fp.size))
    ensures Laid(format, base, list + [fp])
  {
    forall i | 0 <= i < |list| + 1 ensures LaidAt(format, base, list + [fp], i) {
      assert i < |list| ==> LaidAt(format, base, list, i);
    }
  }

  lemma LaidFewer(format: Format, base: int, list: seq<PreloadedFile>, n: nat)
    requires Laid(format, base, list) && n <= |list|
    ensures Laid(format, base, list[..n])
  {
    forall i | 0 <= i < n ensures LaidAt(format, base, list[..n], i) {
      assert LaidAt(format, base, list, i);
    }
  }

  /** If no format goes below the address it is given, no two files overlap. */
  lemma {:induction false} Apart(format: Format, base: int, list: seq<PreloadedFile>, i: nat, j: nat)
    requires Laid(format, base, list) && i < j < |list|
    requires forall name, addr :: format(name, addr).Some? ==> format(name, addr).value.0 >= addr && format(name, addr).value.1 >= 0
    ensures list[i].End() <= list[j].addr
    decreases j
  {
    assert LaidAt(format, base, list, j);
    if i < j - 1 {
      Apart(format, base, list, i, j - 1);
      assert LaidAt(format, base, list, j - 1);
    }
  }

  /** Some file on the disk provides what is depended on. */
  ghost predicate OnDisk(disk: map<string, Image>, d: Depend) {
    exists name :: name in disk && Provides(disk[name].modules, d.name, Some(d))
  }

  /** What the list provides, the disk does. */
  lemma SatisfiedOnDisk(disk: map<string, Image>, list: seq<PreloadedFile>, d: Depend)
    requires FromDisk(disk, list) && Satisfied(list, d)
    ensures OnDisk(disk, d)
  {
    var i :| 0 <= i < |list| && Provides(list[i].modules, d.name, Some(d));
    assert FromDiskAt(disk, list, i);
  }

  /** A dependency of the file is provided by nothing on the disk. */
  ghost predicate Hopeless(disk: map<string, Image>, name: string)
    requires name in disk
  {
    exists d :: d in disk[name].deps && !OnDisk(disk, d)
  }

  /** A list in which all dependencies from place k on are met has no such file there. */
  lemma ClosedNotHopeless(disk: map<string, Image>, list: seq<PreloadedFile>, k: int)
    requires FromDisk(disk, list) && 0 <= k < |list| && Closed(list, k)
    ensures list[k].name in disk && !Hopeless(disk, list[k].name)
  {
    assert FromDiskAt(disk, list, k) && AllMet(list, list[k], |list[k].deps|);
    forall d | d in list[k].deps ensures OnDisk(disk, d) {
      var j :| 0 <= j < |list[k].deps| && list[k].deps[j] == d;
      SatisfiedOnDisk(disk, list, d);
    }
  }

  ghost predicate LinkedAt(list: seq<PreloadedFile>, i: int)
    requires 0 <= i < |list|
    reads list[i]
  {
    list[i].place == i && list[i].next == if i + 1 < |list| then list[i + 1] else null
  }

  class Loader {
    var head: PreloadedFile?
    var loadaddr: int
    const disk: map<string, Image>
    const kldPath: string -> Option<string>
    const modulePath: (string, Option<Depend>) -> Option<string>
    const havePath: string -> bool
    const format: Format
    const base: int      // where the first file goes
    ghost var list: seq<PreloadedFile>
    ghost var repr: set<PreloadedFile>
    ghost var loaded: set<PreloadedFile>
    ghost var discarded: seq<PreloadedFile>

    ghost predicate Linked()
      reads this, repr
    {
      && (forall i :: 0 <= i < |list| ==> list[i] in repr)
      && head == (if list == [] then null else list[0])
      && forall i :: 0 <= i < |list| ==> LinkedAt(list, i)
    }

    /** The load address is where the last file ends. */
    ghost predicate Valid()
      reads this, repr
    {
      Linked() && loadaddr == EndOf(base, list, |list|)
    }

    /** How many files on the disk are not loaded. */
    ghost function Unloaded(): nat
      reads this
    {
      |Missing(disk, list)|
    }

    constructor (disk: map<string, Image>, kldPath: string -> Option<string>,
                 modulePath: (string, Option<Depend>) -> Option<string>, havePath: string -> bool,
                 format: Format, addr: int)
      ensures this.disk == disk && this.kldPath == kldPath && this.format == format && base == addr && repr == {}
      ensures Valid() && Balanced() && list == [] && loadaddr == addr
    {
      this.disk, this.kldPath, this.modulePath, this.havePath, this.format := disk, kldPath, modulePath, havePath, format;
      base := addr;
      head, loadaddr, list, repr, loaded, discarded := null, addr, [], {}, {}, [];
    }

    /** The module in the first file that has one. */
    method FindModule(name: string, ver: Option<Depend>) returns (r: Option<Module>)
      requires Valid()
      ensures r.None? <==> !Available(list, name, ver)
      ensures r.Some? ==> exists i :: 0 <= i < |list| && Best(list[i].modules, name, ver, r.value)
                                      && forall j :: 0 <= j < i ==> !Provides(list[j].modules, name, ver)
    {
      var fp := head;
      ghost var i := 0;
      while fp != null
        invariant 0 <= i <= |list| && fp == if i < |list| then list[i] else null
        invariant forall j :: 0 <= j < i ==> !Provides(list[j].modules, name, ver)
        decreases |list| - i
      {
        r := FindInFile(fp.modules, name, ver);
        if r.Some? {
          return;
        }
        assert LinkedAt(list, i);
        fp := fp.next;
        i := i + 1;
      }
      r := None;
    }

    /** Whether a file of that name is loaded. */
    method FindFile(name: string) returns (found: bool)
      requires Valid()
      ensures found <==> name in Names(list)
    {
      var fp := head;
      ghost var i := 0;
      while fp != null
        invariant 0 <= i <= |list| && fp == if i < |list| then list[i] else null
        invariant forall j :: 0 <= j < i ==> list[j].name != name
        decreases |list| - i
      {
        if fp.name == name {
          return true;
        }
        assert LinkedAt(list, i);
        fp := fp.next;
        i := i + 1;
      }
      found := false;
    }

    method LastFile() returns (last: PreloadedFile?)
      requires Linked()
      ensures last == if list == [] then null else list[|list| - 1]
    {
      last := head;
      ghost var i := 0;
      while last != null && last.next != null
        invariant list != [] ==> 0 <= i < |list| && last == list[i]
        invariant list == [] ==> last == null
        decreases |list| - i
      {
        assert LinkedAt(list, i);
        last := last.next;
        i := i + 1;
      }
      assert list != [] ==> LinkedAt(list, i);
    }

    /** A file format loads the file, at the load address or wherever it must go, or none does. */
    method FileLoad(name: string) returns (err: int, fp: PreloadedFile?)
      ensures err == 0 <==> name in disk && format(name, loadaddr).Some?
      ensures err == 0 ==> fp != null && format(name, loadaddr) == Some((fp.addr, fp.size))
      ensures err == 0 ==> name in disk && fp != null && fresh(fp) && fp.name == name && fp.next == null
                           && fp.modules == disk[name].modules && fp.deps == disk[name].deps
    {
      if name !in disk {
        return ENOENT, null;
      }
      var place := format(name, loadaddr);
      if place.None? {
        return EFTYPE, null;
      }
      err := 0;
      fp := new PreloadedFile(name, place.value.0, place.value.1, disk[name]);
    }

    method InsertTail(fp: PreloadedFile)
      requires Valid() && Balanced() && fp !in list && fp !in loaded
      requires fp.name in disk && fp.modules == disk[fp.name].modules && fp.deps == disk[fp.name].deps
      requires format(fp.name, loadaddr) == Some((fp.addr, fp.size))
      modifies this, repr, fp
      ensures Valid() && Balanced() && list == old(list) + [fp] && loadaddr == fp.End() && repr == old(repr) + {fp}
    {
      AccountedMore(loaded, list, discarded, fp);
      LaidMore(format, base, list, fp);
      loadaddr := fp.End();
      LinkTail(fp);
      loaded := loaded + {fp};
      FromDiskMore(disk, old(list), fp);
    }

    method LinkTail(fp: PreloadedFile)
      requires Linked() && fp !in list
      modifies `head, `list, `repr, repr, fp
      ensures Linked() && list == old(list) + [fp] && repr == old(repr) + {fp}
    {
      fp.next := null;
      fp.place := |list|;
      if head == null {
        head := fp;
      } else {
        var cm := LastFile();
        assert LinkedAt(list, |list| - 1);
        cm.next := fp;
      }
      list := list + [fp];
      repr := repr + {fp};
      forall i | 0 <= i < |list| ensures LinkedAt(list, i) {
        assert i < |list| - 1 ==> old(LinkedAt(list, i));
      }
    }

    /** The files from place n on are taken off the list. */
    method Truncate(ghost n: nat, last: PreloadedFile)
      requires Linked() && 0 < n <= |list| && last == list[n - 1] && BalancedBut(n)
      modifies this, repr
      ensures Valid() && Balanced() && list == old(list)[..n] && loadaddr == last.End() && repr == old(repr)
    {
      FromDiskFewer(disk, list, n);
      LaidFewer(format, base, list, n);
      last.next := null;
      loadaddr := last.End();
      list := list[..n];
      assert list[..n] == old(list)[..n];
      forall i | 0 <= i < |list| ensures LinkedAt(list, i) {
        assert old(LinkedAt(list, i)) && old(LinkedAt(list, n - 1));
      }
    }

    /** Frees the files from base to the end of the list. */
    method DiscardFrom(base: PreloadedFile, ghost n: nat)
      requires Linked() && n < |list| && base == list[n]
      modifies `discarded
      ensures discarded == old(discarded) + list[n..]
    {
      var fp: PreloadedFile? := base;
      ghost var i := n;
      while fp != null
        invariant n <= i <= |list| && fp == if i < |list| then list[i] else null
        invariant discarded == old(discarded) + list[n..i]
        decreases |list| - i
      {
        assert LinkedAt(list, i);
        discarded := discarded + [fp];
        fp := fp.next;
        i := i + 1;
      }
    }

    /** A file that leads to what provides the dependency is found by its name or on the search path. */
    ghost predicate Leads(name: string, ver: Option<Depend>, good: set<string>) {
      var path := if havePath(name) then Some(name) else modulePath(name, ver);
      path.Some? && var file := kldPath(path.value);
      file.Some? && file.value in good && file.value in disk && Provides(disk[file.value].modules, name, ver)
    }

    /** The files can be loaded at any address, and lead to each other for all they depend on. */
    ghost predicate Healthy(good: set<string>) {
      forall f :: f in good ==> HealthyAt(good, f)
    }

    ghost predicate HealthyAt(good: set<string>, f: string) {
      && f in disk && (forall addr :: format(f, addr).Some?)
      && forall j :: 0 <= j < |disk[f].deps| ==> Leads(disk[f].deps[j].name, Some(disk[f].deps[j]), good)
    }

    /** mod_load: the module is there already, or is loaded from the file that has it. */
    method ModLoad(name: string, ver: Option<Depend>, ghost good: set<string>) returns (err: int, crashed: bool)
      requires Valid() && Balanced()
      modifies this, repr
      ensures crashed ==> old(list) == [] && err != 0
      ensures !crashed ==> Valid() && Balanced() && AllOrNothing(old(list), old(loadaddr), list, loadaddr, err)
      ensures forall x :: x in repr && x !in old(repr) ==> fresh(x)
      ensures Healthy(good) && Leads(name, ver, good) ==> err == 0 && Available(list, name, ver)
      decreases Unloaded(), 3
    {
      ghost var entered;
      if havePath(name) {
        err, crashed, entered := LoadKld(name, good);
        if err == 0 {
          NowAvailable(disk, list, kldPath(name).value, name, ver);
        }
        return;
      }
      var mp := FindModule(name, ver);
      if mp.Some? {
        return 0, false;
      }
      var filename := modulePath(name, ver);
      if filename.None? {
        return ENOENT, false;
      }
      err, crashed, entered := LoadKld(filename.value, good);
      if err == 0 {
        NowAvailable(disk, list, kldPath(filename.value).value, name, ver);
      }
    }

    /** Loads what the last file depends on.  If that fails, the file and all that came after it are freed. */
    method LoadDependencies(base: PreloadedFile, ghost good: set<string>) returns (err: int)
      requires Valid() && Balanced() && list != [] && base == list[|list| - 1]
      modifies this, repr
      ensures Linked() && old(list) <= list && forall x :: x in repr && x !in old(repr) ==> fresh(x)
      ensures err == 0 ==> Valid() && Balanced() && Closed(list, |old(list)| - 1)
      ensures err != 0 ==> BalancedBut(|old(list)| - 1)
      ensures Healthy(good) && base.name in good ==> err == 0
      decreases Unloaded(), 5
    {
      ghost var n := |list| - 1;
      err := 0;
      for j := 0 to |base.deps|
        invariant Valid() && Balanced() && old(list) <= list && err == 0
        invariant forall x :: x in repr && x !in old(repr) ==> fresh(x)
        invariant AllMet(list, base, j) && Closed(list, n + 1)
      {
        MoreLoaded(disk, old(list), list);
        err := LoadDependency(base, j, n + 1, good);
        if err != 0 {
          break;
        }
      }
      if err == 0 {
        BaseMet(list, n);
        return;
      }
      AccountedFreed(loaded, list, discarded, n);
      DiscardFrom(base, n);
    }

    lemma DependencyLeads(base: PreloadedFile, j: nat, good: set<string>)
      requires FromDisk(disk, list) && base in list && j < |base.deps|
      ensures Healthy(good) && base.name in good ==> Leads(base.deps[j].name, Some(base.deps[j]), good)
    {
      var i :| 0 <= i < |list| && list[i] == base;
      assert FromDiskAt(disk, list, i);
      if Healthy(good) && base.name in good {
        assert HealthyAt(good, base.name);
      }
    }

    method LoadDependency(base: PreloadedFile, j: nat, ghost k: nat, ghost good: set<string>) returns (err: int)
      requires Valid() && Balanced() && base in list && j < |base.deps|
      requires AllMet(list, base, j) && Closed(list, k)
      modifies this, repr
      ensures Valid() && Balanced() && old(list) <= list && forall x :: x in repr && x !in old(repr) ==> fresh(x)
      ensures err == 0 ==> AllMet(list, base, j + 1) && Closed(list, k)
      ensures Healthy(good) && base.name in good ==> err == 0
      decreases Unloaded(), 4
    {
      err := 0;
      DependencyLeads(base, j, good);
      var d := base.deps[j];
      var mp := FindModule(d.name, Some(d));
      if mp.None? {
        var crashed;
        err, crashed := ModLoad(d.name, Some(d), good);
        if err != 0 {
          return;
        }
        GrewMore(old(list), list, base, j, k);
        mp := FindModule(d.name, Some(d));
        if mp.None? {
          err := ENOENT;
        }
      }
    }

    /**
     mod_loadkld: the file is loaded with all that it and its dependencies need, or the list and the load address are
     as before.  A failure while the list is empty is not survived once the file itself has been loaded.
     */
    method LoadKld(name: string, ghost good: set<string>) returns (err: int, crashed: bool, ghost entered: bool)
      requires Valid() && Balanced()
      modifies this, repr
      ensures entered <==>
        var file := kldPath(name);
        file.Some? && file.value !in Names(old(list)) && file.value in disk && format(file.value, old(loadaddr)).Some?
      ensures crashed <==> entered && err != 0 && old(list) == []
      ensures !crashed ==> Valid() && Balanced() && AllOrNothing(old(list), old(loadaddr), list, loadaddr, err)
      ensures !crashed && err == 0 ==> kldPath(name).Some? && kldPath(name).value in Names(list)
      ensures entered ==> kldPath(name).Some? && kldPath(name).value in disk
      ensures entered && Hopeless(disk, kldPath(name).value) ==> err != 0
      ensures forall x :: x in repr && x !in old(repr) ==> fresh(x)
      ensures Healthy(good) && kldPath(name).Some? && kldPath(name).value in good ==> err == 0
      decreases Unloaded(), 2
    {
      crashed, entered := false, false;
      var filename := kldPath(name);
      if filename.None? {
        return ENOENT, false, false;
      }
      var found := FindFile(filename.value);
      if found {
        return 0, false, false;
      }
      err, crashed, entered := LoadNew(filename.value, good);
    }

    method LoadNew(filename: string, ghost good: set<string>) returns (err: int, crashed: bool, ghost entered: bool)
      requires Valid() && Balanced() && filename !in Names(list)
      modifies this, repr
      ensures entered <==> filename in disk && format(filename, old(loadaddr)).Some?
      ensures crashed <==> entered && err != 0 && old(list) == []
      ensures !crashed ==> Valid() && Balanced() && AllOrNothing(old(list), old(loadaddr), list, loadaddr, err)
      ensures err == 0 ==> filename in Names(list)
      ensures entered ==> filename in disk && (Hopeless(disk, filename) ==> err != 0)
      ensures forall x :: x in repr && x !in old(repr) ==> fresh(x)
      ensures Healthy(good) && filename in good ==> err == 0
      decreases Unloaded(), 1
    {
      crashed, entered := false, false;
      assert Healthy(good) && filename in good ==> HealthyAt(good, filename);
      var last := LastFile();
      var fp;
      err, fp := Enter(filename);
      if err == 0 {
        entered := true;
        err, crashed := Commit(fp, last, old(list), old(loadaddr), good);
      }
    }

    /** The file just put on the list stays with what it depends on, or the list becomes what it was. */
    method Commit(fp: PreloadedFile, last: PreloadedFile?, ghost was: seq<PreloadedFile>, ghost addr: int,
                  ghost good: set<string>)
      returns (err: int, crashed: bool)
      requires Valid() && Balanced() && list == was + [fp] && last == (if was == [] then null else was[|was| - 1])
      requires was != [] ==> addr == was[|was| - 1].End()
      modifies this, repr
      ensures crashed <==> err != 0 && was == []
      ensures !crashed ==> Valid() && Balanced() && AllOrNothing(was, addr, list, loadaddr, err)
      ensures err == 0 ==> fp.name in Names(list)
      ensures fp.name in disk && (Hopeless(disk, fp.name) ==> err != 0)
      ensures forall x :: x in repr && x !in old(repr) ==> fresh(x)
      ensures Healthy(good) && fp.name in good ==> err == 0
      decreases Unloaded(), 7
    {
      FromDiskLast(disk, list);
      err, crashed := Complete(fp, last, good);
      Outcome(disk, was, was + [fp], list, fp, err);
    }

    /** The file itself is loaded and put on the list. */
    method Enter(filename: string) returns (err: int, fp: PreloadedFile?)
      requires Valid() && Balanced() && filename !in Names(list)
      modifies this, repr
      ensures err == 0 <==> filename in disk && format(filename, old(loadaddr)).Some?
      ensures Valid() && Balanced() && forall x :: x in repr && x !in old(repr) ==> fresh(x)
      ensures if err == 0 then fp != null && fp.name == filename && list == old(list) + [fp] && Unloaded() < old(Unloaded())
              else list == old(list) && loadaddr == old(loadaddr)
    {
      err, fp := FileLoad(filename);
      if err == 0 {
        FewerUnloaded(disk, list, fp);
        InsertTail(fp);
      }
    }

    /** Loads what the new file depends on, or takes the file off the list again. */
    method Complete(fp: PreloadedFile, last: PreloadedFile?, ghost good: set<string>) returns (err: int, crashed: bool)
      requires Valid() && Balanced() && list != [] && fp == list[|list| - 1]
      requires last == if |list| == 1 then null else list[|list| - 2]
      modifies this, repr
      ensures crashed <==> err != 0 && last == null
      ensures err == 0 || err == ENOENT
      ensures !crashed ==> Valid() && Balanced()
      ensures !crashed && err != 0 ==> list == old(list)[..|old(list)| - 1] && loadaddr == last.End()
      ensures err == 0 ==> old(list) <= list && Closed(list, |old(list)| - 1)
      ensures forall x :: x in repr && x !in old(repr) ==> fresh(x)
      ensures Healthy(good) && fp.name in good ==> err == 0
      decreases Unloaded(), 6
    {
      ghost var n := |list| - 1;
      err := LoadDependencies(fp, good);
      crashed := false;
      if err != 0 {
        err := ENOENT;
        if last == null {
          return err, true;
        }
        Truncate(n, last);
      }
    }

    /** Every file ever loaded is either on the list or has been freed once. */
    ghost predicate Balanced()
      reads this
    {
      Accounted(loaded, list, discarded) && FromDisk(disk, list) && Laid(format, base, list)
    }

    /** The same, with the files from place n on the list being freed too. */
    ghost predicate BalancedBut(n: int)
      reads this
    {
      0 <= n <= |list| && Accounted(loaded, list[..n], discarded) && FromDisk(disk, list) && Laid(format, base, list)
    }
  }

  /** What a file on the list has on the disk is available. */
  lemma NowAvailable(disk: map<string, Image>, list: seq<PreloadedFile>, file: string, name: string, ver: Option<Depend>)
    requires FromDisk(disk, list) && file in Names(list)
    ensures file in disk && (Provides(disk[file].modules, name, ver) ==> Available(list, name, ver))
  {
    var i :| 0 <= i < |list| && list[i].name == file;
    assert FromDiskAt(disk, list, i);
  }

  lemma FromDiskMore(disk: map<string, Image>, list: seq<PreloadedFile>, fp: PreloadedFile)
    requires FromDisk(disk, list) && fp.name in disk && fp.modules == disk[fp.name].modules && fp.deps == disk[fp.name].deps
    ensures FromDisk(disk, list + [fp])
  {
    forall i | 0 <= i < |list| + 1 ensures FromDiskAt(disk, list + [fp], i) {
      assert i < |list| ==> FromDiskAt(disk, list, i);
    }
  }

  lemma FromDiskFewer(disk: map<string, Image>, list: seq<PreloadedFile>, n: nat)
    requires FromDisk(disk, list) && n <= |list|
    ensures FromDisk(disk, list[..n])
  {
    forall i | 0 <= i < n ensures FromDiskAt(disk, list[..n], i) {
      assert FromDiskAt(disk, list, i);
    }
  }

  /** The list has grown at the end, by files that have what they depend on. */
  ghost predicate Grew(list: seq<PreloadedFile>, list': seq<PreloadedFile>) {
    list <= list' && Closed(list', |list|)
  }

  /** With an error, the list and the load address are as before; else the list has grown. */
  ghost predicate AllOrNothing(list: seq<PreloadedFile>, addr: int, list': seq<PreloadedFile>, addr': int, err: int) {
    if err != 0 then list' == list && addr' == addr else Grew(list, list')
  }

  lemma GrewMore(was: seq<PreloadedFile>, list: seq<PreloadedFile>, base: PreloadedFile, j: int, k: int)
    requires Grew(was, list) && 0 <= j <= |base.deps| && AllMet(was, base, j) && 0 <= k && Closed(was, k)
    ensures AllMet(list, base, j) && Closed(list, k)
  {
    var more := list[|was|..];
    assert list == was + more;
    MetMore(was, more, base, j);
    ClosedMore(was, more, k);
  }

  lemma Outcome(disk: map<string, Image>, was: seq<PreloadedFile>, entered: seq<PreloadedFile>, list: seq<PreloadedFile>, fp: PreloadedFile, err: int)
    requires entered == was + [fp]
    ensures entered[..|entered| - 1] == was
    ensures entered <= list && Closed(list, |was|) ==> Grew(was, list) && fp.name in Names(list)
    ensures entered <= list && Closed(list, |was|) && FromDisk(disk, list) ==> fp.name in disk && !Hopeless(disk, fp.name)
  {
    assert entered <= list ==> list[|was|] == fp;
    if entered <= list && Closed(list, |was|) && FromDisk(disk, list) {
      ClosedNotHopeless(disk, list, |was|);
    }
  }

  lemma FromDiskLast(disk: map<string, Image>, list: seq<PreloadedFile>)
    requires FromDisk(disk, list) && list != []
    ensures list[|list| - 1].name in disk
  {
    assert FromDiskAt(disk, list, |list| - 1);
  }

  /** The first file to be loaded depends on a module that no file has. */
  method FirstLoadCrashes() returns (err: int, crashed: bool)
    ensures crashed
  {
    var kernel := Image([Module("kernel", 1)], [Depend("missing", 1, 1, 1)]);
    var disk := map["/boot/kernel" := kernel];
    var loader := new Loader(disk, _ => Some("/boot/kernel"), (_, _) => None, _ => false, (_, addr) => Some((addr, 100)), 0);
    assert Depend("missing", 1, 1, 1) in disk["/boot/kernel"].deps && !OnDisk(disk, Depend("missing", 1, 1, 1)) by {
      assert forall k :: 0 <= k < |kernel.modules| ==> !Matches(kernel.modules[k], "missing", Some(Depend("missing", 1, 1, 1)));
    }
    assert Hopeless(disk, "/boot/kernel");
    ghost var entered;
    err, crashed, entered := loader.LoadKld("kernel", {});
  }

  lemma BaseMet(list: seq<PreloadedFile>, n: int)
    requires 0 <= n < |list| && AllMet(list, list[n], |list[n].deps|) && Closed(list, n + 1)
    ensures Closed(list, n)
  {
  }

  lemma MoreLoaded(disk: map<string, Image>, list: seq<PreloadedFile>, list': seq<PreloadedFile>)
    requires list <= list'
    ensures |Missing(disk, list')| <= |Missing(disk, list)|
  {
    forall x | x in Names(list) ensures x in Names(list') {
      var i :| 0 <= i < |list| && list[i].name == x;
      assert list'[i] == list[i];
    }
    SubsetSize(Missing(disk, list'), Missing(disk, list));
  }

  lemma FewerUnloaded(disk: map<string, Image>, list: seq<PreloadedFile>, fp: PreloadedFile)
    requires fp.name in disk && fp.name !in Names(list)
    ensures |Missing(disk, list + [fp])| < |Missing(disk, list)|
  {
    var all := list + [fp];
    assert all[|list|] == fp;
    forall x | x in Names(list) ensures x in Names(all) {
      var i :| 0 <= i < |list| && list[i].name == x;
      assert all[i] == list[i];
    }
    assert fp.name in Names(all) && fp.name in Missing(disk, list);
    assert Missing(disk, all) < Missing(disk, list);
    SmallerSet(Missing(disk, all), Missing(disk, list));
  }

  lemma SmallerSet(a: set<string>, b: set<string>)
    requires a < b
    ensures |a| < |b|
  {
    var x :| x in b && x !in a;
    assert a <= b - {x};
    SubsetSize(a, b - {x});
  }
}
