/**
 * The pure parts of the Volume Shadow Copy wrapper: linking a writer's
 * components into a tree, deciding which components are added to a backup,
 * the support test, and the path arithmetic that maps a backup source onto
 * the snapshot device.
 */
module VSSWrapper {
  import opened Common

  // ----- writer components ----------------------------------------------------------------

  /** A writer component: its logical path, name, whether it is selectable, and the index of the component linked as its parent. */
  datatype Component = Component(logicalPath: string, name: string, selectable: bool, parent: Option<nat>)

  /** The logical path and the name joined by a backslash, or the name alone under an empty path. */
  function FullPath(c: Component): (p: string)
    ensures c.logicalPath == "" ==> p == c.name
    ensures c.logicalPath != "" ==> (|p| == |c.logicalPath| + 1 + |c.name| && p[..|c.logicalPath|] == c.logicalPath &&
      p[|c.logicalPath|] == '\\' && p[|c.logicalPath| + 1..] == c.name)
  {
    if c.logicalPath != "" then c.logicalPath + "\\" + c.name else c.name
  }

  /**
   * `self.IsParentOf(other)`: whether `self`'s logical path is `other`'s full
   * path. Despite the name, this holds when `other` is the parent of `self`.
   */
  predicate IsParentOf(self: Component, other: Component)
  {
    self.logicalPath == FullPath(other)
  }

  /** The index `ComputeComponentTree` links as the parent of component `i`: the first `j ≠ i` from `from` on with `comps[j].IsParentOf(comps[i])`. */
  function FindParent(comps: seq<Component>, i: nat, from: nat): (r: Option<nat>)
    requires i < |comps| && from <= |comps|
    ensures r.Some? ==> from <= r.value < |comps| && r.value != i && IsParentOf(comps[r.value], comps[i])
    decreases |comps| - from
  {
    if from == |comps| then None
    else if from != i && IsParentOf(comps[from], comps[i]) then Some(from)
    else FindParent(comps, i, from + 1)
  }

  lemma {:induction false} FindParentFirst(comps: seq<Component>, i: nat, from: nat)
    requires i < |comps| && from <= |comps|
    ensures FindParent(comps, i, from).Some? ==>
      forall k :: from <= k < FindParent(comps, i, from).value && k != i ==> !IsParentOf(comps[k], comps[i])
    ensures FindParent(comps, i, from).None? ==>
      forall k :: from <= k < |comps| && k != i ==> !IsParentOf(comps[k], comps[i])
    decreases |comps| - from
  {
    if from < |comps| && !(from != i && IsParentOf(comps[from], comps[i])) {
      FindParentFirst(comps, i, from + 1);
    }
  }

  /**
   * `ComputeComponentTree`: every component whose search finds a match gets
   * it as parent; the others keep the parent they had (none, for components
   * as the writer metadata creates them).
   */
  function ComputeComponentTree(comps: seq<Component>): (tree: seq<Component>)
    ensures |tree| == |comps|
  {
    seq(|comps|, i requires 0 <= i < |comps| =>
      match FindParent(comps, i, 0)
      case Some(j) => comps[i].(parent := Some(j))
      case None => comps[i])
  }

  /**
   * The tree links component `i` to the first other component whose logical
   * path is `i`'s full path, and changes nothing else.
   */
  lemma ComputeComponentTreeSpec(comps: seq<Component>, i: nat)
    requires i < |comps|
    ensures var t := ComputeComponentTree(comps)[i];
      t == comps[i].(parent := t.parent) &&
      (t.parent == comps[i].parent || t.parent.Some?) &&
      (t.parent != comps[i].parent ==> (t.parent.value < |comps| && t.parent.value != i &&
        comps[t.parent.value].logicalPath == FullPath(comps[i]) &&
        forall k :: 0 <= k < t.parent.value && k != i ==> comps[k].logicalPath != FullPath(comps[i]))) &&
      ((exists k :: 0 <= k < |comps| && k != i && comps[k].logicalPath == FullPath(comps[i])) ==> t.parent.Some?)
  {
    FindParentFirst(comps, i, 0);
  }

  /** `resize(n, false)` on the added flags: existing flags are kept, new ones are false. */
  function ResizeAdded(added: seq<bool>, n: nat): (r: seq<bool>)
    ensures |r| == n
    ensures forall k :: 0 <= k < n ==> r[k] == (k < |added| && added[k])
  {
    if |added| >= n then added[..n] else added + seq(n - |added|, _ => false)
  }

  /** Every parent link points into the list, at a component with a longer logical path. */
  predicate WellLinked(comps: seq<Component>)
  {
    forall i :: 0 <= i < |comps| && comps[i].parent.Some? ==>
      comps[i].parent.value < |comps| && |comps[comps[i].parent.value].logicalPath| > |comps[i].logicalPath|
  }

  /** A component with a path or a name has a full path longer than its logical path. */
  predicate Named(c: Component) { c.logicalPath != "" || c.name != "" }

  /**
   * Because of the inverted test, a linked "parent" sits one level below the
   * component: for named components, and links that already were well
   * formed, the computed tree is well linked.
   */
  lemma ComputedTreeWellLinked(comps: seq<Component>)
    requires WellLinked(comps)
    requires forall i :: 0 <= i < |comps| ==> Named(comps[i])
    ensures WellLinked(ComputeComponentTree(comps))
  {
    var tree := ComputeComponentTree(comps);
    forall i | 0 <= i < |tree| && tree[i].parent.Some?
      ensures tree[i].parent.value < |tree| && |tree[tree[i].parent.value].logicalPath| > |tree[i].logicalPath|
    {
      ComputeComponentTreeSpec(comps, i);
      var j := tree[i].parent.value;
      ComputeComponentTreeSpec(comps, j);
    }
  }

  /** Two components with an empty path and an empty name are linked to each other, a cycle. */
  lemma UnnamedComponentsCycle()
    ensures var c := Component("", "", false, None);
      var tree := ComputeComponentTree([c, c]);
      tree[0].parent == Some(1) && tree[1].parent == Some(0)
  {
    var c := Component("", "", false, None);
    assert FindParent([c, c], 0, 0) == Some(1);
    assert FindParent([c, c], 1, 0) == Some(0);
  }

  /** A bound on every logical path's length. */
  function MaxPathLength(comps: seq<Component>): (m: nat)
    ensures forall k :: 0 <= k < |comps| ==> |comps[k].logicalPath| <= m
  {
    if |comps| == 0 then 0
    else
      var rest := MaxPathLength(comps[1..]);
      assert forall k :: 1 <= k < |comps| ==> comps[k] == comps[1..][k - 1];
      if |comps[0].logicalPath| > rest then |comps[0].logicalPath| else rest
  }

  /**
   * `get_HasSelectableAncestor`: false without a parent, true when the
   * parent is selectable, otherwise the parent's answer.
   */
  function HasSelectableAncestor(comps: seq<Component>, i: nat): bool
    requires WellLinked(comps) && i < |comps|
    decreases MaxPathLength(comps) - |comps[i].logicalPath|
  {
    match comps[i].parent
    case None => false
    case Some(j) => comps[j].selectable || HasSelectableAncestor(comps, j)
  }

  /** The `k`-th component up the parent links from `i`, if the chain is that long. */
  function Ancestor(comps: seq<Component>, i: nat, k: nat): (a: Option<nat>)
    requires WellLinked(comps) && i < |comps|
    ensures a.Some? ==> a.value < |comps|
    decreases k
  {
    if k == 0 then Some(i)
    else match comps[i].parent
      case None => None
      case Some(j) => Ancestor(comps, j, k - 1)
  }

  predicate SelectableAt(comps: seq<Component>, i: nat, k: nat)
    requires WellLinked(comps) && i < |comps|
  {
    Ancestor(comps, i, k).Some? && comps[Ancestor(comps, i, k).value].selectable
  }

  /** A selectable ancestor exists exactly when some component up the chain is selectable. */
  lemma {:induction false} HasSelectableAncestorSpec(comps: seq<Component>, i: nat)
    requires WellLinked(comps) && i < |comps|
    ensures HasSelectableAncestor(comps, i) <==> exists k :: 1 <= k && SelectableAt(comps, i, k)
    decreases MaxPathLength(comps) - |comps[i].logicalPath|
  {
    match comps[i].parent
    case None =>
      forall k | 1 <= k
        ensures !SelectableAt(comps, i, k)
      {
      }
    case Some(j) =>
      HasSelectableAncestorSpec(comps, j);
      if HasSelectableAncestor(comps, i) {
        if comps[j].selectable {
          assert SelectableAt(comps, i, 1);
        } else {
          var k :| 1 <= k && SelectableAt(comps, j, k);
          assert SelectableAt(comps, i, k + 1);
        }
      } else {
        forall k | 1 <= k
          ensures !SelectableAt(comps, i, k)
        {
          if k > 1 {
            assert !SelectableAt(comps, j, k - 1);
          }
        }
      }
  }

  /** `ShouldAddComponent`: a selectable component, or one without a selectable ancestor. */
  function ShouldAddComponent(comps: seq<Component>, i: nat): bool
    requires WellLinked(comps) && i < |comps|
  {
    comps[i].selectable || !HasSelectableAncestor(comps, i)
  }

  /** A component is left out exactly when it is not selectable and something up its chain is. */
  lemma ShouldAddComponentSpec(comps: seq<Component>, i: nat)
    requires WellLinked(comps) && i < |comps|
    ensures !ShouldAddComponent(comps, i) <==>
      !comps[i].selectable && exists k :: 1 <= k && SelectableAt(comps, i, k)
  {
    HasSelectableAncestorSpec(comps, i);
  }

  // ----- platform support ---------------------------------------------------------------

  /** What `VSSIsSupported` asks the system. */
  datatype Platform = Platform(versionKnown: bool, major: nat, minor: nat, winPE: bool, wow64: bool)

  /** `VSSIsSupported`: Windows XP (5.1) or later, not Windows PE, not a 32-bit process on a 64-bit system. */
  function VSSIsSupported(p: Platform): bool
  {
    p.versionKnown && (p.major > 5 || (p.major == 5 && p.minor >= 1)) && !p.winPE && !p.wow64
  }

  /** Support never goes away on a later version, and Windows 2000 (5.0) is never supported. */
  lemma VSSSupportMonotone(p: Platform, major: nat, minor: nat)
    requires VSSIsSupported(p)
    requires major > p.major || (major == p.major && minor >= p.minor)
    ensures VSSIsSupported(p.(major := major, minor := minor))
    ensures !VSSIsSupported(p.(major := 5, minor := 0)) && !VSSIsSupported(p.(major := 4))
  {
  }

  // ----- paths ----------------------------------------------------------------------------

  /** `EndsWith`: false for the empty string, otherwise whether the last character is `c`. */
  function EndsWith(s: string, c: char): (b: bool)
    ensures b <==> |s| > 0 && s[|s| - 1] == c
  {
    if |s| == 0 then false else s[|s| - 1] == c
  }

  /** `CombinePath`: the two paths joined with one backslash unless the first is empty or already ends with one. */
  function CombinePath(p1: string, p2: string): (r: string)
  {
    if |p1| > 0 && !EndsWith(p1, '\\') then p1 + "\\" + p2 else p1 + p2
  }

  /**
   * The combined path starts with the first path and ends with the second,
   * with exactly one backslash between them when the first is not empty.
   */
  lemma CombinePathSpec(p1: string, p2: string)
    ensures var r := CombinePath(p1, p2);
      |r| >= |p1| + |p2| && r[..|p1|] == p1 && r[|r| - |p2|..] == p2 &&
      (|p1| == 0 ==> r == p2) &&
      (|p1| > 0 ==> (r[|r| - |p2| - 1] == '\\' && |r| - |p2| - 1 <= |p1| &&
        (EndsWith(p1, '\\') <==> |r| == |p1| + |p2|)))
  {
    var r := CombinePath(p1, p2);
    assert r[..|p1|] == p1;
    assert r[|r| - |p2|..] == p2;
  }

  /**
   * `CalculateSourcePath`: the backup source without its first
   * |mount point| characters, combined with the snapshot device; None where
   * `substr` throws because the mount point is longer than the source.
   */
  function CalculateSourcePath(snapshotDevice: string, backupSource: string, mountPoint: string): (r: Option<string>)
    ensures r.None? <==> |mountPoint| > |backupSource|
  {
    if |mountPoint| > |backupSource| then None
    else Some(CombinePath(snapshotDevice, backupSource[|mountPoint|..]))
  }

  /** A source under its mount point is found at the same place under the snapshot device. */
  lemma SourceUnderMountPoint(snapshotDevice: string, mountPoint: string, subdirectory: string)
    ensures CalculateSourcePath(snapshotDevice, mountPoint + subdirectory, mountPoint) ==
      Some(CombinePath(snapshotDevice, subdirectory))
  {
    assert (mountPoint + subdirectory)[|mountPoint|..] == subdirectory;
  }

  /** The prefix VSS puts in front of a snapshot device object. */
  const GLOBALROOT: string := "\\\\?\\GLOBALROOT"

  datatype DeviceName = NoDevice | Device(path: string) | PastEnd

  /**
   * `GetSnapshotDeviceName`: nothing for a volume without a snapshot,
   * otherwise the device name after its first 14 characters; a name shorter
   * than that would be read past its end.
   */
  function GetSnapshotDeviceName(deviceObject: string): (r: DeviceName)
    ensures r == NoDevice <==> deviceObject == ""
    ensures r == PastEnd <==> 0 < |deviceObject| < 14
  {
    if deviceObject == "" then NoDevice
    else if |deviceObject| < 14 then PastEnd
    else Device(deviceObject[14..])
  }

  /** The 14 characters dropped are the `\\?\GLOBALROOT` prefix, so the device path behind it comes back. */
  lemma SnapshotDeviceDropsPrefix(device: string)
    ensures |GLOBALROOT| == 14
    ensures GetSnapshotDeviceName(GLOBALROOT + device) == Device(device)
  {
    assert (GLOBALROOT + device)[14..] == device;
  }
}
