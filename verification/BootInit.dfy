/** initramfs/init: from the command line to the point where the new root is handed over. Every command that can
    fail has its outcome in `World`; the theorems hold for all of them. */
module BootInit {
  import opened Results

  // ---------------------------------------------------------------- the command line

  /** The value of the last argument that starts with `prefix`. */
  function LastValue(args: seq<string>, prefix: string, default: string): string {
    if args == [] then default
    else
      var last := args[|args| - 1];
      if prefix <= last then last[|prefix|..] else LastValue(args[..|args| - 1], prefix, default)
  }

  const ROOT := "root=PARTLABEL="
  const MODE := "tc8.rootfs="
  const SIZE := "tc8.overlay_size="

  /** Only an argument that starts with the prefix can change the value; the last one does. */
  lemma {:induction false} LastValueIs(args: seq<string>, prefix: string, default: string, k: nat)
    requires k < |args| && prefix <= args[k]
    requires forall i :: k < i < |args| ==> !(prefix <= args[i])
    ensures LastValue(args, prefix, default) == args[k][|prefix|..]
  {
    if k < |args| - 1 {
      LastValueIs(args[..|args| - 1], prefix, default, k);
    }
  }

  /** Without such an argument the value is the default. */
  lemma {:induction false} DefaultIs(args: seq<string>, prefix: string, default: string)
    requires forall i :: 0 <= i < |args| ==> !(prefix <= args[i])
    ensures LastValue(args, prefix, default) == default
  {
    if args != [] {
      assert args[|args| - 1] in args;
      DefaultIs(args[..|args| - 1], prefix, default);
    }
  }

  // ---------------------------------------------------------------- partitions by name

  /** A uevent file: its lines, split at the first equals sign. */
  datatype Uevent = Uevent(isFile: bool, lines: seq<(string, string)>)

  /** The last value of a field. */
  function Field(lines: seq<(string, string)>, key: string): string {
    if lines == [] then ""
    else if lines[|lines| - 1].0 == key then lines[|lines| - 1].1
    else Field(lines[..|lines| - 1], key)
  }

  predicate Names(u: Uevent, name: string) {
    u.isFile && Field(u.lines, "PARTNAME") == name && Field(u.lines, "DEVNAME") != ""
  }

  function Device(u: Uevent): string { "/dev/" + Field(u.lines, "DEVNAME") }

  /** The device of the first block device that carries the name. */
  function Find(us: seq<Uevent>, name: string): (dev: Option<string>)
    ensures dev.None? <==> forall i :: 0 <= i < |us| ==> !Names(us[i], name)
    ensures dev.Some? ==> dev.value != ""
  {
    if us == [] then None else if Names(us[0], name) then Some(Device(us[0])) else Find(us[1..], name)
  }

  /** `find_partlabel`. */
  method FindPartlabel(us: seq<Uevent>, name: string) returns (dev: Option<string>)
    ensures dev == Find(us, name)
    ensures dev.Some? ==>
      exists i :: 0 <= i < |us| && Names(us[i], name) && dev == Some(Device(us[i])) && forall j :: 0 <= j < i ==> !Names(us[j], name)
  {
    assert us[0..] == us;
    for i := 0 to |us|
      invariant forall j :: 0 <= j < i ==> !Names(us[j], name)
      invariant Find(us, name) == Find(us[i..], name)
    {
      var u := us[i];
      assert us[i..][1..] == us[i + 1..];
      if u.isFile {
        var devname, partname := "", "";
        for n := 0 to |u.lines|
          invariant devname == Field(u.lines[..n], "DEVNAME") && partname == Field(u.lines[..n], "PARTNAME")
        {
          var (k, v) := u.lines[n];
          assert u.lines[..n + 1][..n] == u.lines[..n];
          if k == "DEVNAME" {
            devname := v;
          } else if k == "PARTNAME" {
            partname := v;
          }
        }
        assert u.lines[..|u.lines|] == u.lines;
        if partname == name && devname != "" {
          return Some("/dev/" + devname);
        }
      }
    }
    return None;
  }

  /** The last line with the key gives the value; without one it is empty. */
  predicate HasValue(lines: seq<(string, string)>, key: string, value: string) {
    if forall i :: 0 <= i < |lines| ==> lines[i].0 != key then value == ""
    else exists i :: 0 <= i < |lines| && lines[i] == (key, value) && forall j :: i < j < |lines| ==> lines[j].0 != key
  }

  lemma {:induction false} FieldIs(lines: seq<(string, string)>, key: string)
    ensures HasValue(lines, key, Field(lines, key))
  {
    if lines != [] {
      var n := |lines| - 1;
      var init := lines[..n];
      assert forall i :: 0 <= i < n ==> init[i] == lines[i];
      if lines[n].0 == key {
        assert lines[n] == (key, lines[n].1);
      } else {
        FieldIs(init, key);
        if !(forall i :: 0 <= i < |init| ==> init[i].0 != key) {
          var i :| 0 <= i < |init| && init[i] == (key, Field(init, key)) && forall j :: i < j < |init| ==> init[j].0 != key;
          assert lines[i] == (key, Field(lines, key)) && forall j :: i < j < |lines| ==> lines[j].0 != key;
        }
      }
    }
  }

  /** A file with these values of PARTNAME and DEVNAME. */
  predicate Carries(u: Uevent, name: string, devname: string) {
    u.isFile && HasValue(u.lines, "PARTNAME", name) && HasValue(u.lines, "DEVNAME", devname)
  }

  /** What `find_partlabel` finds: the device node of the first file that carries the name and names a device. */
  lemma {:induction false} FoundIs(us: seq<Uevent>, name: string) returns (i: nat, devname: string)
    ensures Find(us, name).Some? ==>
      i < |us| && devname != "" && Carries(us[i], name, devname) && Find(us, name).value == "/dev/" + devname
    ensures Find(us, name).None? ==> i == |us|
    ensures i <= |us| && forall j, other :: 0 <= j < i && Carries(us[j], name, other) ==> other == ""
  {
    i, devname := 0, "";
    if us != [] {
      FieldIs(us[0].lines, "PARTNAME");
      FieldIs(us[0].lines, "DEVNAME");
      forall other | Carries(us[0], name, other)
        ensures Field(us[0].lines, "PARTNAME") == name && Field(us[0].lines, "DEVNAME") == other
      {
        OneValue(us[0].lines, "PARTNAME", name, Field(us[0].lines, "PARTNAME"));
        OneValue(us[0].lines, "DEVNAME", other, Field(us[0].lines, "DEVNAME"));
      }
      if Names(us[0], name) {
        devname := Field(us[0].lines, "DEVNAME");
      } else {
        var k, d := FoundIs(us[1..], name);
        i, devname := k + 1, d;
        assert forall j :: 1 <= j < i ==> us[j] == us[1..][j - 1];
      }
    }
  }

  lemma OneValue(lines: seq<(string, string)>, key: string, a: string, b: string)
    requires HasValue(lines, key, a) && HasValue(lines, key, b)
    ensures a == b
  {
  }

  // ---------------------------------------------------------------- what the world answers

  datatype World = World(
    args: seq<string>, blocks: nat -> seq<Uevent>, isBlock: (nat, string) -> bool,
    atFlag: seq<Uevent>, mountPersist: bool, flagExists: bool, umountPersist: bool,
    atConfig: seq<Uevent>, cacheHead: string, mountConfig: bool, bindDev: bool, bindProc: bool, bindSys: bool,
    applierOk: bool, umountDev: bool, umountProcBind: bool, umountSysBind: bool, umountConfig: bool,
    mountRw: bool, mountLower: bool, mountTmpfs: bool, mountOverlay: bool, moveLower: bool, moveUpper: bool,
    umountUpper: bool, umountLower: bool, mountFallback: bool, moveDev: bool, umountProc: bool, umountSys: bool)
  {
    function Label(): string { LastValue(args, ROOT, "userdata") }

    predicate Appears(t: nat) {
      Find(blocks(t), Label()).Some? && isBlock(t, Find(blocks(t), Label()).value)
    }

    /** The mode given on the command line, if it is not empty, else that of the flag file. */
    predicate Maintenance() {
      var mode := LastValue(args, MODE, "");
      if mode != "" then mode == "rw" else Find(atFlag, "facres").Some? && mountPersist && flagExists
    }

    predicate Staged() { Find(atConfig, "cache").Some? && cacheHead == "TC8CFGv1" }

    predicate OverlayWorks() { mountTmpfs && mountOverlay }
  }

  const TRIES := 100

  ghost predicate RootFound(w: World) { exists t: nat :: t < TRIES && w.Appears(t) }

  // ---------------------------------------------------------------- the mount table

  datatype Kind = Ro | Rw | Tmpfs | Overlay | Bind | Special

  datatype Mount = Mount(source: string, target: string, kind: Kind)

  /** What the script does to the system; `Applied` is a run of the config applier in the new root. */
  datatype Action = Mounted(m: Mount) | Unmounted(target: string) | Moved(from: string, to: string) | Applied(ok: bool)

  /** The topmost mount on a target, counted from the end; -1 if there is none. */
  function Topmost(table: seq<Mount>, target: string): (i: int)
    ensures -1 <= i < |table|
    ensures i >= 0 ==> table[i].target == target
    ensures forall j :: i < j < |table| ==> table[j].target != target
  {
    if table == [] then -1
    else if table[|table| - 1].target == target then |table| - 1
    else Topmost(table[..|table| - 1], target)
  }

  function Apply(table: seq<Mount>, a: Action): seq<Mount> {
    match a
    case Mounted(m) => table + [m]
    case Unmounted(target) =>
      var i := Topmost(table, target);
      if i < 0 then table else table[..i] + table[i + 1..]
    case Moved(from, to) =>
      var i := Topmost(table, from);
      if i < 0 then table else table[..i] + table[i + 1..] + [table[i].(target := to)]
    case Applied(_) => table
  }

  const AT_START := [Mount("proc", "/proc", Special), Mount("sysfs", "/sys", Special), Mount("devtmpfs", "/dev", Special)]

  /** The table after a sequence of actions. */
  function Replay(log: seq<Action>): seq<Mount> {
    if log == [] then AT_START else Apply(Replay(log[..|log| - 1]), log[|log| - 1])
  }

  /** Device `dev` is mounted writable somewhere. */
  predicate Writable(table: seq<Mount>, dev: string) {
    exists i :: 0 <= i < |table| && table[i].source == dev && table[i].kind == Rw
  }

  /** Device `dev` was mounted writable at some time. */
  predicate EverWritable(log: seq<Action>, dev: string) {
    exists i :: 0 <= i < |log| && log[i].Mounted? && log[i].m.source == dev && log[i].m.kind == Rw
  }

  /** Whenever the lower layer was mounted, the device was not mounted writable anywhere. */
  predicate LowerIsClean(log: seq<Action>, dev: string) {
    forall i :: 0 <= i < |log| && log[i] == Mounted(Mount(dev, "/lower", Ro)) ==> !Writable(Replay(log[..i]), dev)
  }

  predicate LastOn(table: seq<Mount>, target: string, i: int) {
    0 <= i < |table| && table[i].target == target && forall j :: i < j < |table| ==> table[j].target != target
  }

  /** What each action does: the last mount on a target is the one that goes or moves; the others keep their order. */
  lemma MountingIs(table: seq<Mount>, m: Mount, ok: bool)
    ensures Apply(table, Mounted(m)) == table + [m] && Apply(table, Applied(ok)) == table
  {
  }

  lemma UnmountingIs(table: seq<Mount>, target: string, i: int)
    ensures (forall j :: 0 <= j < |table| ==> table[j].target != target) ==> Apply(table, Unmounted(target)) == table
    ensures LastOn(table, target, i) ==> Apply(table, Unmounted(target)) == table[..i] + table[i + 1..]
  {
    hide Topmost;
  }

  lemma MovingIs(table: seq<Mount>, from: string, to: string, i: int)
    ensures (forall j :: 0 <= j < |table| ==> table[j].target != from) ==> Apply(table, Moved(from, to)) == table
    ensures LastOn(table, from, i) ==>
      Apply(table, Moved(from, to)) == table[..i] + table[i + 1..] + [Mount(table[i].source, to, table[i].kind)]
  {
    hide Topmost;
  }

  /** What the topmost mount on the new root is. */
  predicate NewRootIs(table: seq<Mount>, m: Mount) {
    Topmost(table, "/newroot") >= 0 && table[Topmost(table, "/newroot")] == m
  }

  lemma TopmostIs(table: seq<Mount>, target: string, i: nat)
    requires i < |table| && table[i].target == target && forall j :: i < j < |table| ==> table[j].target != target
    ensures Topmost(table, target) == i
  {
  }

  // ---------------------------------------------------------------- how the table changes

  lemma {:induction false} WritableWasMounted(log: seq<Action>, dev: string)
    requires Writable(Replay(log), dev)
    ensures EverWritable(log, dev)
  {
    if log != [] {
      var before, a := Replay(log[..|log| - 1]), log[|log| - 1];
      var i :| 0 <= i < |Replay(log)| && Replay(log)[i].source == dev && Replay(log)[i].kind == Rw;
      if Writable(before, dev) {
        WritableWasMounted(log[..|log| - 1], dev);
        var k :| 0 <= k < |log| - 1 && log[..|log| - 1][k].Mounted?
                 && log[..|log| - 1][k].m.source == dev && log[..|log| - 1][k].m.kind == Rw;
        assert log[k].Mounted? && log[k].m.source == dev && log[k].m.kind == Rw;
      } else {
        NewWritable(before, a, dev);
        assert log[|log| - 1].Mounted?;
      }
    }
  }

  /** Only mounting the device writable makes it writable. */
  lemma NewWritable(table: seq<Mount>, a: Action, dev: string)
    ensures Writable(Apply(table, a), dev) ==> Writable(table, dev) || (a.Mounted? && a.m.source == dev && a.m.kind == Rw)
    ensures Writable(table, dev) && a.Mounted? ==> Writable(Apply(table, a), dev)
  {
    var after := Apply(table, a);
    if a.Mounted? {
      if i :| 0 <= i < |table| && table[i].source == dev && table[i].kind == Rw {
        assert after[i] == table[i];
      }
    }
    if !Writable(table, dev) {
      assert forall i :: 0 <= i < |table| ==> !(table[i].source == dev && table[i].kind == Rw);
    }
  }

  /** The device is mounted writable once, as the only mount on the new root. */
  predicate OnceAt(table: seq<Mount>, dev: string, k: nat) {
    && k < |table| && table[k] == Mount(dev, "/newroot", Rw)
    && forall j :: 0 <= j < |table| && j != k ==> table[j].target != "/newroot" && !(table[j].source == dev && table[j].kind == Rw)
  }

  ghost predicate Once(table: seq<Mount>, dev: string) { exists k: nat :: OnceAt(table, dev, k) }

  /** Mounts and unmounts elsewhere do not change that; unmounting the new root undoes it. */
  lemma OnceStep(table: seq<Mount>, a: Action, dev: string)
    requires Once(table, dev)
    ensures a.Mounted? && a.m.target != "/newroot" && a.m.kind != Rw ==> Once(Apply(table, a), dev)
    ensures a.Unmounted? && a.target != "/newroot" ==> Once(Apply(table, a), dev)
    ensures a.Applied? ==> Once(Apply(table, a), dev)
  {
    var k: nat :| OnceAt(table, dev, k);
    if a.Mounted? && a.m.target != "/newroot" && a.m.kind != Rw {
      assert OnceAt(Apply(table, a), dev, k);
    } else if a.Unmounted? && a.target != "/newroot" {
      OnceWithout(table, dev, k, Topmost(table, a.target));
    }
  }

  lemma OnceWithout(table: seq<Mount>, dev: string, k: nat, i: int)
    requires OnceAt(table, dev, k) && i < |table| && (i >= 0 ==> table[i].target != "/newroot")
    ensures Once(if i < 0 then table else table[..i] + table[i + 1..], dev)
  {
    if i >= 0 {
      assert OnceAt(table[..i] + table[i + 1..], dev, if i > k then k else k - 1);
    }
  }

  /** A table in which nothing is mounted on the new root, and the device nowhere writable. */
  predicate Bare(table: seq<Mount>, dev: string) {
    forall j :: 0 <= j < |table| ==> table[j].target != "/newroot" && !(table[j].source == dev && table[j].kind == Rw)
  }

  lemma BareStep(table: seq<Mount>, a: Action, dev: string)
    requires Bare(table, dev)
    ensures a == Mounted(Mount(dev, "/newroot", Rw)) ==> Once(Apply(table, a), dev)
    ensures a.Mounted? && a.m.target != "/newroot" && a.m.kind != Rw ==> Bare(Apply(table, a), dev)
    ensures a.Unmounted? ==> Bare(Apply(table, a), dev)
    ensures !Writable(table, dev)
  {
    if a == Mounted(Mount(dev, "/newroot", Rw)) {
      assert OnceAt(Apply(table, a), dev, |table|);
    }
  }

  /** Unmounting the only mount on the new root leaves it bare. */
  lemma OnceGone(table: seq<Mount>, dev: string)
    requires Once(table, dev)
    ensures Bare(Apply(table, Unmounted("/newroot")), dev)
  {
    var k: nat :| OnceAt(table, dev, k);
    TopmostIs(table, "/newroot", k);
  }

  lemma KeptWithout(table: seq<Mount>, i: nat, m: Mount)
    requires NewRootIs(table, m) && i < |table| && table[i].target != "/newroot"
    ensures NewRootIs(table[..i] + table[i + 1..], m)
  {
    var k := Topmost(table, "/newroot");
    TopmostIs(table[..i] + table[i + 1..], "/newroot", if i > k then k else k - 1);
  }

  lemma KeptWith(table: seq<Mount>, n: Mount, m: Mount)
    requires NewRootIs(table, m) && n.target != "/newroot"
    ensures NewRootIs(table + [n], m)
  {
    TopmostIs(table + [n], "/newroot", Topmost(table, "/newroot"));
  }

  /** Unmounts and moves elsewhere leave the new root alone. */
  lemma KeptByUnmount(table: seq<Mount>, target: string, m: Mount)
    requires NewRootIs(table, m) && target != "/newroot"
    ensures NewRootIs(Apply(table, Unmounted(target)), m)
  {
    hide NewRootIs, Topmost;
    var i := Topmost(table, target);
    if i >= 0 {
      KeptWithout(table, i, m);
    }
  }

  lemma KeptByMove(table: seq<Mount>, from: string, to: string, m: Mount)
    requires NewRootIs(table, m) && from != "/newroot" && to != "/newroot"
    ensures NewRootIs(Apply(table, Moved(from, to)), m)
  {
    hide NewRootIs, Topmost;
    var i := Topmost(table, from);
    if i >= 0 {
      KeptWithout(table, i, m);
      KeptWith(table[..i] + table[i + 1..], table[i].(target := to), m);
    }
  }

  lemma StepKeeps(log: seq<Action>, a: Action, dev: string)
    requires LowerIsClean(log, dev)
    requires a == Mounted(Mount(dev, "/lower", Ro)) ==> !Writable(Replay(log), dev)
    ensures LowerIsClean(log + [a], dev) && Replay(log + [a]) == Apply(Replay(log), a)
    ensures EverWritable(log + [a], dev) <==> EverWritable(log, dev) || (a.Mounted? && a.m.source == dev && a.m.kind == Rw)
  {
    var next := log + [a];
    assert next[..|log|] == log;
    forall i | 0 <= i < |next| && next[i] == Mounted(Mount(dev, "/lower", Ro))
      ensures !Writable(Replay(next[..i]), dev)
    {
      assert next[..i] == log[..i];
      assert i < |log| ==> next[i] == log[i];
    }
    if EverWritable(log, dev) {
      var i :| 0 <= i < |log| && log[i].Mounted? && log[i].m.source == dev && log[i].m.kind == Rw;
      assert next[i] == log[i];
    } else {
      assert forall i :: 0 <= i < |log| ==> next[i] == log[i];
      assert next[|log|] == a;
    }
  }

  // ---------------------------------------------------------------- how a boot ends

  datatype End = Switched | Rescued

  /** The new root is the overlay, and nothing can write to the device. */
  predicate Sealed(table: seq<Mount>, dev: string) {
    NewRootIs(table, Mount("tc8-root", "/newroot", Overlay)) && !Writable(table, dev)
  }

  /** The new root is the device itself, writable. */
  predicate Direct(table: seq<Mount>, dev: string) { NewRootIs(table, Mount(dev, "/newroot", Rw)) }

  /** What it means for a boot to end sealed or direct, by the last mount on the new root and all mounts of the device. */
  lemma EndsMean(table: seq<Mount>, dev: string)
    ensures Direct(table, dev) <==>
      exists i :: LastOn(table, "/newroot", i) && table[i] == Mount(dev, "/newroot", Rw)
    ensures Sealed(table, dev) <==>
      && (exists i :: LastOn(table, "/newroot", i) && table[i] == Mount("tc8-root", "/newroot", Overlay))
      && forall i :: 0 <= i < |table| && table[i].source == dev ==> table[i].kind != Rw
  {
    var k := Topmost(table, "/newroot");
    assert forall i :: LastOn(table, "/newroot", i) ==> i == k;
    assert k >= 0 ==> LastOn(table, "/newroot", k);
  }

  /** The table at any time comes from the three mounts made first and one action after the other; the device was
      writable at some time if one of the actions mounted it so. */
  lemma ReplayIs(log: seq<Action>, a: Action, dev: string)
    ensures Replay([]) ==
      [Mount("proc", "/proc", Special), Mount("sysfs", "/sys", Special), Mount("devtmpfs", "/dev", Special)]
    ensures Replay(log + [a]) == Apply(Replay(log), a)
    ensures EverWritable(log, dev) <==> exists target :: Mounted(Mount(dev, target, Rw)) in log
  {
    assert (log + [a])[..|log|] == log;
    if EverWritable(log, dev) {
      var i :| 0 <= i < |log| && log[i].Mounted? && log[i].m.source == dev && log[i].m.kind == Rw;
      assert log[i] == Mounted(Mount(dev, log[i].m.target, Rw));
    }
  }

  /** A config blob was applied and the root file system cannot be unmounted again. */
  predicate ConfigStuck(w: World) { w.Staged() && w.mountConfig && !w.umountConfig }

  /** The mount the mode asks for fails, and so does the fallback of sealed mode. */
  predicate MountFails(w: World) {
    if w.Maintenance() then !w.mountRw else !w.mountLower || (!w.OverlayWorks() && !w.mountFallback)
  }

  predicate SealsRoot(w: World) { !w.Maintenance() && w.OverlayWorks() }

  // ---------------------------------------------------------------- what the script does, step by step

  /** An action that may fail. */
  function Did(log: seq<Action>, a: Action, ok: bool): seq<Action> { if ok then log + [a] else log }

  function FlagLog(w: World, log: seq<Action>): seq<Action> {
    var facres := Find(w.atFlag, "facres");
    if LastValue(w.args, MODE, "") == "" && facres.Some? && w.mountPersist then
      Did(Did(log, Mounted(Mount(facres.value, "/persist", Ro)), true), Unmounted("/persist"), w.umountPersist)
    else log
  }

  function ConfigLog(w: World, dev: string, log: seq<Action>): seq<Action> {
    if !w.Staged() || !w.mountConfig then log
    else
      var mounted := Did(log, Mounted(Mount(dev, "/newroot", Rw)), true);
      Did(ApplierLog(w, mounted), Unmounted("/newroot"), w.umountConfig)
  }

  /** Running the applier inside the mounted root. */
  function ApplierLog(w: World, log: seq<Action>): seq<Action> {
    var a := Did(log, Mounted(Mount("/dev", "/newroot/dev", Bind)), w.bindDev);
    var b := Did(a, Mounted(Mount("/proc", "/newroot/proc", Bind)), w.bindProc);
    var c := Did(b, Mounted(Mount("/sys", "/newroot/sys", Bind)), w.bindSys);
    var applied := Did(c, Applied(w.applierOk), true);
    var d := Did(applied, Unmounted("/newroot/dev"), w.umountDev);
    var e := Did(d, Unmounted("/newroot/proc"), w.umountProcBind);
    Did(e, Unmounted("/newroot/sys"), w.umountSysBind)
  }

  function SealedLog(w: World, dev: string, log: seq<Action>): seq<Action> {
    var lower := Did(log, Mounted(Mount(dev, "/lower", Ro)), w.mountLower);
    if !w.mountLower then lower
    else
      var upper := Did(lower, Mounted(Mount("tc8-overlay", "/rw", Tmpfs)), w.mountTmpfs);
      if w.OverlayWorks() then
        var overlay := Did(upper, Mounted(Mount("tc8-root", "/newroot", Overlay)), true);
        Did(Did(overlay, Moved("/lower", "/newroot/mnt/.tc8/lower"), w.moveLower),
            Moved("/rw", "/newroot/mnt/.tc8/rw"), w.moveUpper)
      else
        var undone := Did(Did(upper, Unmounted("/rw"), w.umountUpper), Unmounted("/lower"), w.umountLower);
        Did(undone, Mounted(Mount(dev, "/newroot", Rw)), w.mountFallback)
  }

  function MountLog(w: World, dev: string, log: seq<Action>): seq<Action> {
    if w.Maintenance() then Did(log, Mounted(Mount(dev, "/newroot", Rw)), w.mountRw) else SealedLog(w, dev, log)
  }

  function SwitchLog(w: World, log: seq<Action>): seq<Action> {
    Did(Did(Did(log, Moved("/dev", "/newroot/dev"), w.moveDev), Unmounted("/proc"), w.umountProc), Unmounted("/sys"), w.umountSys)
  }

  /** Everything the script does, once it has found the root device. */
  function BootLog(w: World, dev: string): seq<Action> {
    var config := ConfigLog(w, dev, FlagLog(w, []));
    if ConfigStuck(w) then config
    else
      var mounted := MountLog(w, dev, config);
      if MountFails(w) then mounted else SwitchLog(w, mounted)
  }

  /** An action that is taken if it works. */
  function When(ok: bool, a: Action): seq<Action> { if ok then [a] else [] }

  /** Whether the root is to be mounted writable: asked for on the command line or, without a word about it there, by a
      flag file in a partition that is there and can be mounted. */
  predicate AsksForRw(w: World) {
    var mode := LastValue(w.args, "tc8.rootfs=", "");
    mode == "rw" || (mode == "" && Find(w.atFlag, "facres").Some? && w.mountPersist && w.flagExists)
  }

  /** A config blob is there and the root file system can be mounted for it. */
  predicate Applies(w: World) { Find(w.atConfig, "cache").Some? && w.cacheHead == "TC8CFGv1" && w.mountConfig }

  /** Everything the script does, in order, for every outcome of every command. */
  lemma BootSteps(w: World, dev: string)
    ensures
      var mode := LastValue(w.args, "tc8.rootfs=", "");
      var rw := mode == "rw" || (mode == "" && Find(w.atFlag, "facres").Some? && w.mountPersist && w.flagExists);
      var applies := Find(w.atConfig, "cache").Some? && w.cacheHead == "TC8CFGv1" && w.mountConfig;
      var facres := Find(w.atFlag, "facres");
      var flag :=
        if mode == "" && facres.Some? && w.mountPersist then
          [Mounted(Mount(facres.value, "/persist", Ro))] + When(w.umountPersist, Unmounted("/persist"))
        else [];
      var config :=
        if applies then
          [Mounted(Mount(dev, "/newroot", Rw))] + When(w.bindDev, Mounted(Mount("/dev", "/newroot/dev", Bind)))
          + When(w.bindProc, Mounted(Mount("/proc", "/newroot/proc", Bind)))
          + When(w.bindSys, Mounted(Mount("/sys", "/newroot/sys", Bind))) + [Applied(w.applierOk)]
          + When(w.umountDev, Unmounted("/newroot/dev")) + When(w.umountProcBind, Unmounted("/newroot/proc"))
          + When(w.umountSysBind, Unmounted("/newroot/sys")) + When(w.umountConfig, Unmounted("/newroot"))
        else [];
      var mount :=
        if rw then When(w.mountRw, Mounted(Mount(dev, "/newroot", Rw)))
        else if !w.mountLower then []
        else [Mounted(Mount(dev, "/lower", Ro))] + When(w.mountTmpfs, Mounted(Mount("tc8-overlay", "/rw", Tmpfs)))
             + if w.mountTmpfs && w.mountOverlay then
                 [Mounted(Mount("tc8-root", "/newroot", Overlay))] + When(w.moveLower, Moved("/lower", "/newroot/mnt/.tc8/lower"))
                 + When(w.moveUpper, Moved("/rw", "/newroot/mnt/.tc8/rw"))
               else
                 When(w.umountUpper, Unmounted("/rw")) + When(w.umountLower, Unmounted("/lower"))
                 + When(w.mountFallback, Mounted(Mount(dev, "/newroot", Rw)));
      var handOver := When(w.moveDev, Moved("/dev", "/newroot/dev")) + When(w.umountProc, Unmounted("/proc"))
                      + When(w.umountSys, Unmounted("/sys"));
      var failed :=
        if rw then !w.mountRw else !w.mountLower || (!(w.mountTmpfs && w.mountOverlay) && !w.mountFallback);
      BootLog(w, dev) ==
        flag + config + if applies && !w.umountConfig then [] else mount + if failed then [] else handOver
  {
    hide Find, LastValue, FlagLog, ConfigLog, MountLog, SwitchLog, BootLog, When;
    var flag := FlagLog(w, []);
    FlagSteps(w);
    var config := ConfigSteps(w, dev, flag);
    var mount := MountSteps(w, dev, flag + config);
    var handOver := SwitchSteps(w, flag + config + mount);
    BootParts(w, dev, flag, config, mount, handOver);
    ModeIs(w);
  }

  lemma ModeIs(w: World)
    ensures w.Maintenance() <==> AsksForRw(w)
    ensures ConfigStuck(w) <==> Applies(w) && !w.umountConfig
  {
    hide Find, LastValue;
  }

  lemma BootParts(w: World, dev: string, flag: seq<Action>, config: seq<Action>, mount: seq<Action>, handOver: seq<Action>)
    requires FlagLog(w, []) == flag && ConfigLog(w, dev, flag) == flag + config
    requires MountLog(w, dev, flag + config) == flag + config + mount
    requires SwitchLog(w, flag + config + mount) == flag + config + mount + handOver
    ensures BootLog(w, dev) ==
      flag + config + if ConfigStuck(w) then [] else mount + if MountFails(w) then [] else handOver
  {
    hide Find, LastValue, FlagLog, ConfigLog, MountLog, SwitchLog, ConfigStuck, MountFails;
    assert flag + config + [] == flag + config && flag + config + (mount + []) == flag + config + mount;
    assert flag + config + mount + handOver == flag + config + (mount + handOver);
  }

  lemma FlagSteps(w: World)
    ensures FlagLog(w, []) ==
      if LastValue(w.args, "tc8.rootfs=", "") == "" && Find(w.atFlag, "facres").Some? && w.mountPersist then
        [Mounted(Mount(Find(w.atFlag, "facres").value, "/persist", Ro))] + When(w.umountPersist, Unmounted("/persist"))
      else []
  {
    hide Find, LastValue;
  }

  lemma DidAfter(log: seq<Action>, some: seq<Action>, a: Action, ok: bool)
    ensures Did(log + some, a, ok) == log + (some + When(ok, a))
  {
    assert log + some + [a] == log + (some + [a]);
  }

  lemma ApplierSteps(w: World, log: seq<Action>, mounted: Action)
    ensures ApplierLog(w, log + [mounted]) ==
      log + ([mounted] + When(w.bindDev, Mounted(Mount("/dev", "/newroot/dev", Bind)))
             + When(w.bindProc, Mounted(Mount("/proc", "/newroot/proc", Bind)))
             + When(w.bindSys, Mounted(Mount("/sys", "/newroot/sys", Bind))) + [Applied(w.applierOk)]
             + When(w.umountDev, Unmounted("/newroot/dev")) + When(w.umountProcBind, Unmounted("/newroot/proc"))
             + When(w.umountSysBind, Unmounted("/newroot/sys")))
  {
    hide Did, When;
    var bindDev := Mounted(Mount("/dev", "/newroot/dev", Bind));
    var bindProc := Mounted(Mount("/proc", "/newroot/proc", Bind));
    var bindSys := Mounted(Mount("/sys", "/newroot/sys", Bind));
    DidAfter(log, [mounted], bindDev, w.bindDev);
    var a := [mounted] + When(w.bindDev, bindDev);
    DidAfter(log, a, bindProc, w.bindProc);
    var b := a + When(w.bindProc, bindProc);
    DidAfter(log, b, bindSys, w.bindSys);
    var c := b + When(w.bindSys, bindSys);
    DidAfter(log, c, Applied(w.applierOk), true);
    assert When(true, Applied(w.applierOk)) == [Applied(w.applierOk)] by { WhenTrue(Applied(w.applierOk)); }
    var d := c + [Applied(w.applierOk)];
    DidAfter(log, d, Unmounted("/newroot/dev"), w.umountDev);
    var e := d + When(w.umountDev, Unmounted("/newroot/dev"));
    DidAfter(log, e, Unmounted("/newroot/proc"), w.umountProcBind);
    DidAfter(log, e + When(w.umountProcBind, Unmounted("/newroot/proc")), Unmounted("/newroot/sys"), w.umountSysBind);
  }

  lemma WhenTrue(a: Action)
    ensures When(true, a) == [a]
  {
  }

  lemma ConfigSteps(w: World, dev: string, log: seq<Action>) returns (steps: seq<Action>)
    ensures ConfigLog(w, dev, log) == log + steps
    ensures steps ==
      if Applies(w) then
        [Mounted(Mount(dev, "/newroot", Rw))] + When(w.bindDev, Mounted(Mount("/dev", "/newroot/dev", Bind)))
        + When(w.bindProc, Mounted(Mount("/proc", "/newroot/proc", Bind)))
        + When(w.bindSys, Mounted(Mount("/sys", "/newroot/sys", Bind))) + [Applied(w.applierOk)]
        + When(w.umountDev, Unmounted("/newroot/dev")) + When(w.umountProcBind, Unmounted("/newroot/proc"))
        + When(w.umountSysBind, Unmounted("/newroot/sys")) + When(w.umountConfig, Unmounted("/newroot"))
      else []
  {
    hide When, ApplierLog, Find;
    steps := [];
    if Applies(w) {
      var mounted := Mounted(Mount(dev, "/newroot", Rw));
      ApplierSteps(w, log, mounted);
      var some :=
        [mounted] + When(w.bindDev, Mounted(Mount("/dev", "/newroot/dev", Bind)))
        + When(w.bindProc, Mounted(Mount("/proc", "/newroot/proc", Bind)))
        + When(w.bindSys, Mounted(Mount("/sys", "/newroot/sys", Bind))) + [Applied(w.applierOk)]
        + When(w.umountDev, Unmounted("/newroot/dev")) + When(w.umountProcBind, Unmounted("/newroot/proc"))
        + When(w.umountSysBind, Unmounted("/newroot/sys"));
      DidAfter(log, some, Unmounted("/newroot"), w.umountConfig);
      steps := some + When(w.umountConfig, Unmounted("/newroot"));
    }
  }

  lemma SealedSteps(w: World, dev: string, log: seq<Action>) returns (steps: seq<Action>)
    ensures SealedLog(w, dev, log) == log + steps
    ensures steps ==
      if !w.mountLower then []
      else [Mounted(Mount(dev, "/lower", Ro))] + When(w.mountTmpfs, Mounted(Mount("tc8-overlay", "/rw", Tmpfs)))
           + if w.mountTmpfs && w.mountOverlay then
               [Mounted(Mount("tc8-root", "/newroot", Overlay))] + When(w.moveLower, Moved("/lower", "/newroot/mnt/.tc8/lower"))
               + When(w.moveUpper, Moved("/rw", "/newroot/mnt/.tc8/rw"))
             else
               When(w.umountUpper, Unmounted("/rw")) + When(w.umountLower, Unmounted("/lower"))
               + When(w.mountFallback, Mounted(Mount(dev, "/newroot", Rw)))
  {
    hide When, Did;
    var lower := Mounted(Mount(dev, "/lower", Ro));
    var upper := Mounted(Mount("tc8-overlay", "/rw", Tmpfs));
    var start := [lower] + When(w.mountTmpfs, upper);
    assert Did(log, lower, w.mountLower) == log + if w.mountLower then [lower] else [] by { OneDid(log, lower, w.mountLower); }
    DidAfter(log, [lower], upper, w.mountTmpfs);
    if !w.mountLower {
      return [];
    }
    if w.OverlayWorks() {
      var overlay := Mounted(Mount("tc8-root", "/newroot", Overlay));
      var down, up := Moved("/lower", "/newroot/mnt/.tc8/lower"), Moved("/rw", "/newroot/mnt/.tc8/rw");
      ThreeMore(log, start, overlay, true, down, w.moveLower, up, w.moveUpper);
      WhenTrue(overlay);
      return start + ([overlay] + When(w.moveLower, down) + When(w.moveUpper, up));
    } else {
      var direct := Mounted(Mount(dev, "/newroot", Rw));
      ThreeMore(log, start, Unmounted("/rw"), w.umountUpper, Unmounted("/lower"), w.umountLower, direct, w.mountFallback);
      return start + (When(w.umountUpper, Unmounted("/rw")) + When(w.umountLower, Unmounted("/lower"))
                      + When(w.mountFallback, direct));
    }
  }

  lemma OneDid(log: seq<Action>, a: Action, ok: bool)
    ensures Did(log, a, ok) == log + if ok then [a] else []
  {
  }

  lemma ThreeMore(log: seq<Action>, some: seq<Action>, a: Action, okA: bool, b: Action, okB: bool, c: Action, okC: bool)
    ensures Did(Did(Did(log + some, a, okA), b, okB), c, okC) == log + (some + (When(okA, a) + When(okB, b) + When(okC, c)))
  {
    hide When, Did;
    var first := some + When(okA, a);
    var second := first + When(okB, b);
    DidAfter(log, some, a, okA);
    DidAfter(log, first, b, okB);
    DidAfter(log, second, c, okC);
    assert second + When(okC, c) == some + (When(okA, a) + When(okB, b) + When(okC, c));
  }

  lemma MountSteps(w: World, dev: string, log: seq<Action>) returns (steps: seq<Action>)
    ensures MountLog(w, dev, log) == log + steps
    ensures steps ==
      if AsksForRw(w) then When(w.mountRw, Mounted(Mount(dev, "/newroot", Rw)))
      else if !w.mountLower then []
      else [Mounted(Mount(dev, "/lower", Ro))] + When(w.mountTmpfs, Mounted(Mount("tc8-overlay", "/rw", Tmpfs)))
           + if w.mountTmpfs && w.mountOverlay then
               [Mounted(Mount("tc8-root", "/newroot", Overlay))] + When(w.moveLower, Moved("/lower", "/newroot/mnt/.tc8/lower"))
               + When(w.moveUpper, Moved("/rw", "/newroot/mnt/.tc8/rw"))
             else
               When(w.umountUpper, Unmounted("/rw")) + When(w.umountLower, Unmounted("/lower"))
               + When(w.mountFallback, Mounted(Mount(dev, "/newroot", Rw)))
  {
    hide SealedLog, Find, LastValue;
    ModeIs(w);
    if AsksForRw(w) {
      OneDid(log, Mounted(Mount(dev, "/newroot", Rw)), w.mountRw);
      return When(w.mountRw, Mounted(Mount(dev, "/newroot", Rw)));
    }
    steps := SealedSteps(w, dev, log);
  }

  lemma SwitchSteps(w: World, log: seq<Action>) returns (steps: seq<Action>)
    ensures SwitchLog(w, log) == log + steps
    ensures steps == When(w.moveDev, Moved("/dev", "/newroot/dev")) + When(w.umountProc, Unmounted("/proc"))
                     + When(w.umountSys, Unmounted("/sys"))
  {
    hide When, Did;
    steps := When(w.moveDev, Moved("/dev", "/newroot/dev")) + When(w.umountProc, Unmounted("/proc"))
             + When(w.umountSys, Unmounted("/sys"));
    ThreeMore(log, [], Moved("/dev", "/newroot/dev"), w.moveDev, Unmounted("/proc"), w.umountProc, Unmounted("/sys"), w.umountSys);
    assert log + [] == log && [] + steps == steps;
  }

  // ---------------------------------------------------------------- the script

  /** The script's variables, the mount table, and everything that was done to it. */
  class Init {
    var rootlabel: string
    var mode: string
    var overlaySize: string
    var rootdev: string
    var tries: nat
    var overlayOk: bool
    var mounts: seq<Mount>
    var log: seq<Action>

    constructor ()
      ensures Valid() && log == [] && rootdev == ""
      ensures rootlabel == "userdata" && mode == "" && overlaySize == "50%" && tries == 0 && !overlayOk
    {
      rootlabel, mode, overlaySize, rootdev, tries, overlayOk := "userdata", "", "50%", "", 0, false;
      mounts, log := AT_START, [];
    }

    ghost predicate Valid()
      reads this
    {
      mounts == Replay(log) && LowerIsClean(log, rootdev)
    }

    /** A mount, umount or move that may fail. */
    method Do(a: Action, ok: bool)
      requires Valid() && (a == Mounted(Mount(rootdev, "/lower", Ro)) ==> !Writable(mounts, rootdev))
      modifies this`mounts, this`log
      ensures Valid()
      ensures mounts == if ok then Apply(old(mounts), a) else old(mounts)
      ensures EverWritable(log, rootdev) <==>
        old(EverWritable(log, rootdev)) || (ok && a.Mounted? && a.m.source == rootdev && a.m.kind == Rw)
      ensures log == Did(old(log), a, ok)
    {
      if ok {
        StepKeeps(log, a, rootdev);
        mounts, log := Apply(mounts, a), log + [a];
      }
    }

    /** The loop over the arguments of the kernel. */
    method ParseCmdline(args: seq<string>)
      requires rootlabel == "userdata" && mode == "" && overlaySize == "50%"
      modifies this`rootlabel, this`mode, this`overlaySize
      ensures rootlabel == LastValue(args, "root=PARTLABEL=", "userdata")
      ensures mode == LastValue(args, "tc8.rootfs=", "") && overlaySize == LastValue(args, "tc8.overlay_size=", "50%")
    {
      for i := 0 to |args|
        invariant rootlabel == LastValue(args[..i], ROOT, "userdata")
        invariant mode == LastValue(args[..i], MODE, "") && overlaySize == LastValue(args[..i], SIZE, "50%")
      {
        var arg := args[i];
        assert args[..i + 1][..i] == args[..i];
        PrefixesDiffer(arg);
        if ROOT <= arg {
          rootlabel := arg[|ROOT|..];
        } else if MODE <= arg {
          mode := arg[|MODE|..];
        } else if SIZE <= arg {
          overlaySize := arg[|SIZE|..];
        }
      }
      assert args[..|args|] == args;
    }

    /** The polling loop: at most a hundred tries, and the device of the first one that succeeds. */
    method WaitForRoot(w: World)
      requires rootlabel == w.Label() && tries == 0
      modifies this`rootdev, this`tries
      ensures tries <= TRIES && forall t: nat :: t < tries ==> !w.Appears(t)
      ensures tries < TRIES ==> w.Appears(tries) && rootdev == Find(w.blocks(tries), w.Label()).value
      ensures tries == TRIES ==> rootdev == ""
      ensures rootdev != "" <==> RootFound(w)
    {
      rootdev := "";
      while tries < TRIES
        invariant tries <= TRIES && rootdev == "" && forall t: nat :: t < tries ==> !w.Appears(t)
      {
        var dev := FindPartlabel(w.blocks(tries), rootlabel);
        if dev.Some? && w.isBlock(tries, dev.value) {
          assert w.Appears(tries);
          rootdev := dev.value;
          return;
        }
        rootdev := "";
        tries := tries + 1;
      }
    }

    /** The maintenance flag, unless the command line decided. */
    method ReadFlag(w: World)
      requires Valid() && Bare(mounts, rootdev) && mode == LastValue(w.args, MODE, "")
      modifies this`mode, this`mounts, this`log
      ensures Valid() && Bare(mounts, rootdev)
      ensures mode == if w.Maintenance() then "rw" else "ro"
      ensures log == FlagLog(w, old(log))
      ensures EverWritable(log, rootdev) == old(EverWritable(log, rootdev))
    {
      hide Replay, Apply, EverWritable, LowerIsClean;
      if mode == "" {
        var facres := FindPartlabel(w.atFlag, "facres");
        if facres.Some? && w.mountPersist {
          var m := Mount(facres.value, "/persist", Ro);
          BareStep(mounts, Mounted(m), rootdev);
          Do(Mounted(m), true);
          if w.flagExists {
            mode := "rw";
          }
          BareStep(mounts, Unmounted("/persist"), rootdev);
          Do(Unmounted("/persist"), w.umountPersist);
        }
      }
      if mode != "rw" {
        mode := "ro";
      }
    }

    /** Applying a staged config blob to the root file system, mounted writable for that. */
    method ApplyConfig(w: World) returns (rescue: bool)
      requires Valid() && Bare(mounts, rootdev) && !EverWritable(log, rootdev)
      modifies this`mounts, this`log
      ensures Valid()
      ensures rescue <==> w.Staged() && w.mountConfig && !w.umountConfig
      ensures !rescue ==> Bare(mounts, rootdev)
      ensures EverWritable(log, rootdev) <==> w.Staged() && w.mountConfig
      ensures log == ConfigLog(w, rootdev, old(log))
    {
      hide Replay, Apply, EverWritable, LowerIsClean, Bare, Once, Writable;
      var cfgdev := FindPartlabel(w.atConfig, "cache");
      if cfgdev.None? || w.cacheHead != "TC8CFGv1" || !w.mountConfig {
        return false;
      }
      var rw := Mounted(Mount(rootdev, "/newroot", Rw));
      BareStep(mounts, rw, rootdev);
      Do(rw, true);
      RunApplier(w);
      OnceGone(mounts, rootdev);
      Do(Unmounted("/newroot"), w.umountConfig);
      return !w.umountConfig;
    }

    /** The applier needs the device, process and system trees below the new root; afterwards they go again. */
    method RunApplier(w: World)
      requires Valid() && Once(mounts, rootdev)
      modifies this`mounts, this`log
      ensures Valid() && Once(mounts, rootdev)
      ensures EverWritable(log, rootdev) == old(EverWritable(log, rootdev))
      ensures log == ApplierLog(w, old(log))
    {
      hide Replay, Apply, EverWritable, LowerIsClean, Bare, Once, Writable;
      Beside(Mounted(Mount("/dev", "/newroot/dev", Bind)), w.bindDev);
      Beside(Mounted(Mount("/proc", "/newroot/proc", Bind)), w.bindProc);
      Beside(Mounted(Mount("/sys", "/newroot/sys", Bind)), w.bindSys);
      Beside(Applied(w.applierOk), true);
      Beside(Unmounted("/newroot/dev"), w.umountDev);
      Beside(Unmounted("/newroot/proc"), w.umountProcBind);
      Beside(Unmounted("/newroot/sys"), w.umountSysBind);
    }

    /** A bind mount below the new root, its removal, or a run of the applier. */
    method Beside(a: Action, ok: bool)
      requires Valid() && Once(mounts, rootdev)
      requires match a
        case Mounted(m) => m.target != "/newroot" && m.kind == Bind
        case Unmounted(t) => t != "/newroot"
        case Moved(_, _) => false
        case Applied(_) => true
      modifies this`mounts, this`log
      ensures Valid() && Once(mounts, rootdev)
      ensures log == Did(old(log), a, ok)
      ensures EverWritable(log, rootdev) == old(EverWritable(log, rootdev))
    {
      hide Replay, Apply, EverWritable, LowerIsClean, Once, Writable;
      OnceStep(mounts, a, rootdev);
      Do(a, ok);
    }

    /** Maintenance mode: the root file system directly, writable. */
    method MountDirect(ok: bool)
      requires Valid() && Bare(mounts, rootdev)
      modifies this`mounts, this`log
      ensures Valid() && EverWritable(log, rootdev) == (ok || old(EverWritable(log, rootdev)))
      ensures log == Did(old(log), Mounted(Mount(rootdev, "/newroot", Rw)), ok)
      ensures ok ==> NewRootIs(mounts, Mount(rootdev, "/newroot", Rw))
    {
      hide Replay, EverWritable, LowerIsClean, Writable;
      var m := Mount(rootdev, "/newroot", Rw);
      TopmostIs(mounts + [m], "/newroot", |mounts|);
      Do(Mounted(m), ok);
    }

    /** Sealed mode: read-only lower layer, tmpfs, overlay; or the fallback to a direct mount. */
    method MountSealed(w: World) returns (rescue: bool)
      requires Valid() && Bare(mounts, rootdev) && !overlayOk
      modifies this`mounts, this`log, this`overlayOk
      ensures Valid() && overlayOk == (w.mountLower && w.OverlayWorks())
      ensures rescue <==> !w.mountLower || (!w.OverlayWorks() && !w.mountFallback)
      ensures overlayOk ==> NewRootIs(mounts, Mount("tc8-root", "/newroot", Overlay)) && !Writable(mounts, rootdev)
      ensures !rescue && !overlayOk ==> NewRootIs(mounts, Mount(rootdev, "/newroot", Rw))
      ensures EverWritable(log, rootdev) <==>
        old(EverWritable(log, rootdev)) || (w.mountLower && !w.OverlayWorks() && w.mountFallback)
      ensures log == SealedLog(w, rootdev, old(log))
    {
      hide Replay, EverWritable, LowerIsClean, Writable, Apply;
      var lower := Mounted(Mount(rootdev, "/lower", Ro));
      BareStep(mounts, lower, rootdev);
      Do(lower, w.mountLower);
      if !w.mountLower {
        return true;
      }
      var tmpfs := Mounted(Mount("tc8-overlay", "/rw", Tmpfs));
      BareStep(mounts, tmpfs, rootdev);
      Do(tmpfs, w.mountTmpfs);
      if w.mountTmpfs && w.mountOverlay {
        MountOverlay();
        overlayOk := true;
      }
      if overlayOk {
        Aside(Moved("/lower", "/newroot/mnt/.tc8/lower"), w.moveLower);
        Aside(Moved("/rw", "/newroot/mnt/.tc8/rw"), w.moveUpper);
        return false;
      }
      BareStep(mounts, Unmounted("/rw"), rootdev);
      Do(Unmounted("/rw"), w.umountUpper);
      BareStep(mounts, Unmounted("/lower"), rootdev);
      Do(Unmounted("/lower"), w.umountLower);
      MountDirect(w.mountFallback);
      return !w.mountFallback;
    }

    method MountOverlay()
      requires Valid() && Bare(mounts, rootdev)
      modifies this`mounts, this`log
      ensures Valid() && EverWritable(log, rootdev) == old(EverWritable(log, rootdev))
      ensures NewRootIs(mounts, Mount("tc8-root", "/newroot", Overlay)) && !Writable(mounts, rootdev)
      ensures log == Did(old(log), Mounted(Mount("tc8-root", "/newroot", Overlay)), true)
    {
      hide Replay, EverWritable, LowerIsClean;
      var m := Mount("tc8-root", "/newroot", Overlay);
      TopmostIs(mounts + [m], "/newroot", |mounts|);
      Do(Mounted(m), true);
    }

    /** Moving a mount away or unmounting it, not the new root itself; failure does not matter. */
    method Aside(a: Action, ok: bool)
      requires Valid() && Topmost(mounts, "/newroot") >= 0
      requires match a
        case Mounted(_) => false
        case Unmounted(t) => t != "/newroot"
        case Moved(from, to) => from != "/newroot" && to != "/newroot"
        case Applied(_) => false
      modifies this`mounts, this`log
      ensures Valid() && EverWritable(log, rootdev) == old(EverWritable(log, rootdev))
      ensures NewRootIs(mounts, old(mounts[Topmost(mounts, "/newroot")]))
      ensures !old(Writable(mounts, rootdev)) ==> !Writable(mounts, rootdev)
      ensures log == Did(old(log), a, ok)
    {
      hide Replay, EverWritable, LowerIsClean, Apply, Writable;
      ghost var root := mounts[Topmost(mounts, "/newroot")];
      if a.Unmounted? {
        KeptByUnmount(mounts, a.target, root);
      } else {
        KeptByMove(mounts, a.from, a.to, root);
      }
      NewWritable(mounts, a, rootdev);
      Do(a, ok);
    }

    /** The last steps before the new root takes over. */
    method PrepareSwitch(w: World)
      requires Valid() && Topmost(mounts, "/newroot") >= 0
      modifies this`mounts, this`log
      ensures Valid() && EverWritable(log, rootdev) == old(EverWritable(log, rootdev))
      ensures NewRootIs(mounts, old(mounts[Topmost(mounts, "/newroot")]))
      ensures !old(Writable(mounts, rootdev)) ==> !Writable(mounts, rootdev)
      ensures log == SwitchLog(w, old(log))
    {
      hide Replay, EverWritable, LowerIsClean, Writable, Topmost;
      Aside(Moved("/dev", "/newroot/dev"), w.moveDev);
      Aside(Unmounted("/proc"), w.umountProc);
      Aside(Unmounted("/sys"), w.umountSys);
    }

    /** The mount section. */
    method MountRoot(w: World) returns (rescue: bool)
      requires Valid() && Bare(mounts, rootdev) && !overlayOk && mode == if w.Maintenance() then "rw" else "ro"
      modifies this`mounts, this`log, this`overlayOk
      ensures Valid() && (rescue <==> MountFails(w))
      ensures !rescue ==> if SealsRoot(w) then Sealed(mounts, rootdev) else Direct(mounts, rootdev)
      ensures EverWritable(log, rootdev) <==> old(EverWritable(log, rootdev)) || (!rescue && !SealsRoot(w))
      ensures log == MountLog(w, rootdev, old(log))
    {
      hide Replay, EverWritable, LowerIsClean, Writable;
      if mode == "rw" {
        MountDirect(w.mountRw);
        return !w.mountRw;
      }
      rescue := MountSealed(w);
    }

    /** The script from the start; it ends in the rescue shell or hands over the new root. */
    method Run(w: World) returns (end: End)
      requires Valid() && log == [] && rootdev == ""
      requires rootlabel == "userdata" && mode == "" && overlaySize == "50%" && tries == 0 && !overlayOk
      modifies this
      ensures Valid() && LowerIsClean(log, rootdev)
      ensures end.Rescued? <==> !RootFound(w) || ConfigStuck(w) || MountFails(w)
      ensures end.Switched? ==> if SealsRoot(w) then Sealed(mounts, rootdev) else Direct(mounts, rootdev)
      ensures EverWritable(log, rootdev) <==> RootFound(w) && ((w.Staged() && w.mountConfig) || (end.Switched? && !SealsRoot(w)))
      ensures rootdev != "" <==> RootFound(w)
      ensures log == if rootdev == "" then [] else BootLog(w, rootdev)
    {
      hide EverWritable, Writable, BootLog, ConfigStuck, MountFails, SealsRoot, Sealed, Direct, LastValue;
      ParseCmdline(w.args);
      WaitForRoot(w);
      NothingDoneYet(rootdev);
      if rootdev == "" {
        return Rescued;
      }
      end := HandOver(w);
    }

    /** The script from the moment the root device is known. */
    method HandOver(w: World) returns (end: End)
      requires Valid() && log == [] && mode == LastValue(w.args, MODE, "") && !overlayOk
      requires Bare(mounts, rootdev) && !EverWritable(log, rootdev)
      modifies this`mode, this`mounts, this`log, this`overlayOk
      ensures Valid()
      ensures end.Rescued? <==> ConfigStuck(w) || MountFails(w)
      ensures end.Switched? ==> if SealsRoot(w) then Sealed(mounts, rootdev) else Direct(mounts, rootdev)
      ensures EverWritable(log, rootdev) <==> (w.Staged() && w.mountConfig) || (end.Switched? && !SealsRoot(w))
      ensures log == BootLog(w, rootdev)
    {
      hide EverWritable, Writable, Replay, LowerIsClean, Find, LastValue, FlagLog, ConfigLog, MountLog, SwitchLog, MountFails;
      ReadFlag(w);
      var stuck := ApplyConfig(w);
      if stuck {
        return Rescued;
      }
      var failed := MountRoot(w);
      if failed {
        return Rescued;
      }
      NewRootThere(mounts, rootdev);
      PrepareSwitch(w);
      return Switched;
    }
  }

  lemma PrefixesDiffer(arg: string)
    ensures ROOT <= arg ==> !(MODE <= arg) && !(SIZE <= arg)
    ensures MODE <= arg ==> !(SIZE <= arg)
  {
    assert ROOT[0] == 'r' && MODE[0] == 't' && SIZE[0] == 't' && MODE[4] == 'r' && SIZE[4] == 'o';
  }

  lemma NothingDoneYet(dev: string)
    ensures LowerIsClean([], dev) && !EverWritable([], dev) && Replay([]) == AT_START && Bare(AT_START, dev)
  {
  }

  lemma NewRootThere(table: seq<Mount>, dev: string)
    requires Sealed(table, dev) || Direct(table, dev)
    ensures Topmost(table, "/newroot") >= 0
    ensures Sealed(table, dev) ==> !Writable(table, dev)
    ensures !(Sealed(table, dev) && Direct(table, dev))
  {
  }

  lemma FoundIf(w: World)
    ensures RootFound(w) <==>
      exists t: nat, dev ::
        t < 100 && Find(w.blocks(t), LastValue(w.args, "root=PARTLABEL=", "userdata")) == Some(dev) && w.isBlock(t, dev)
  {
    hide Find, LastValue;
    if RootFound(w) {
      var t: nat :| t < TRIES && w.Appears(t);
      var dev := Find(w.blocks(t), w.Label()).value;
      assert Find(w.blocks(t), LastValue(w.args, "root=PARTLABEL=", "userdata")) == Some(dev) && w.isBlock(t, dev);
    }
    if t: nat, dev :|
      t < 100 && Find(w.blocks(t), LastValue(w.args, "root=PARTLABEL=", "userdata")) == Some(dev) && w.isBlock(t, dev)
    {
      assert t < TRIES && w.Appears(t);
    }
  }

  lemma FailsIf(w: World)
    ensures MountFails(w) <==>
      if AsksForRw(w) then !w.mountRw else !w.mountLower || (!(w.mountTmpfs && w.mountOverlay) && !w.mountFallback)
    ensures SealsRoot(w) <==> !AsksForRw(w) && w.mountTmpfs && w.mountOverlay
  {
    ModeIs(w);
  }

  /** Booting. The device is writable at some time only in maintenance mode, with a config blob staged, or when
      the overlay failed; and a mode on the command line decides before the flag does. */
  method Boot(w: World) returns (end: End, init: Init)
    ensures end.Rescued? <==> !RootFound(w) || ConfigStuck(w) || MountFails(w)
    ensures end.Switched? ==> (Sealed(init.mounts, init.rootdev) <==> SealsRoot(w))
    ensures end.Switched? ==> (Direct(init.mounts, init.rootdev) <==> !SealsRoot(w))
    ensures LowerIsClean(init.log, init.rootdev)
    ensures EverWritable(init.log, init.rootdev) ==> w.Maintenance() || w.Staged() || !w.OverlayWorks()
    ensures end.Switched? && LastValue(w.args, MODE, "") == "rw" ==> Direct(init.mounts, init.rootdev)
    ensures end.Switched? && LastValue(w.args, MODE, "") !in {"", "rw"} && w.OverlayWorks() ==>
      Sealed(init.mounts, init.rootdev)
    ensures
      var mode := LastValue(w.args, "tc8.rootfs=", "");
      var rw := mode == "rw" || (mode == "" && Find(w.atFlag, "facres").Some? && w.mountPersist && w.flagExists);
      var overlay := w.mountTmpfs && w.mountOverlay;
      var found :=
        exists t: nat, dev :: t < 100 && Find(w.blocks(t), LastValue(w.args, "root=PARTLABEL=", "userdata")) == Some(dev)
                              && w.isBlock(t, dev);
      var applies := Find(w.atConfig, "cache").Some? && w.cacheHead == "TC8CFGv1" && w.mountConfig;
      var (table, dev) := (init.mounts, init.rootdev);
      && (end.Rescued? <==>
            || !found || (applies && !w.umountConfig)
            || (if rw then !w.mountRw else !w.mountLower || (!overlay && !w.mountFallback)))
      && (end.Switched? && (rw || !overlay) ==> Direct(table, dev) && !Sealed(table, dev))
      && (end.Switched? && !rw && overlay ==> Sealed(table, dev) && !Direct(table, dev))
      && (EverWritable(init.log, dev) <==> found && (applies || (end.Switched? && (rw || !overlay))))
    ensures init.log == if init.rootdev == "" then [] else BootLog(w, init.rootdev)
  {
    hide EverWritable, LowerIsClean, Sealed, Direct, RootFound, Replay, Find, LastValue, ConfigStuck, MountFails, SealsRoot;
    init := new Init();
    end := init.Run(w);
    ModeIs(w);
    FailsIf(w);
    FoundIf(w);
    if end.Switched? {
      NewRootThere(init.mounts, init.rootdev);
    }
  }
}
