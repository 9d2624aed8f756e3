/** The joint tree of composables/robot.ts: `createTree` builds one node per
    joint of a robot description and links each node to the nodes named in its
    `linked_to` list, and `initRobot` stores the tree and refills the
    name-to-node map. */
module RobotTree {
  import opened Wrappers
  import opened RobotSchemas

  /** One joint of a description, as `createTree` reads it. */
  datatype JointDesc = JointDesc(isRoot: bool, constraint: Constraint, origin: Position,
                                 linkedTo: Option<seq<string>>)

  /** A named joint; a description's joints are listed in `Object.entries` order. */
  datatype Entry = Entry(name: string, joint: JointDesc)

  datatype Description = Description(information: string, joints: seq<Entry>)

  /** The three errors `createTree` throws. */
  datatype TreeError =
    | NoRootJoint
    | JointExistsMultipleTimes(name: string)
    | LinkedJointNotFound(name: string)

  /** The joint's links; an absent `linked_to` links nothing. */
  function Links(j: JointDesc): seq<string>
  {
    if j.linkedTo.Some? then j.linkedTo.value else []
  }

  function NamesOf(es: seq<Entry>): set<string>
  {
    if es == [] then {} else NamesOf(es[..|es| - 1]) + {es[|es| - 1].name}
  }

  /** The index of the first entry marked as root, as `Array.find` sees it. */
  function FirstRoot(es: seq<Entry>): (r: Option<nat>)
    ensures r.Some? ==> r.value < |es|
  {
    if es == [] then None
    else match FirstRoot(es[..|es| - 1])
      case Some(i) => Some(i)
      case None => if es[|es| - 1].joint.isRoot then Some(|es| - 1) else None
  }

  /** The first name that repeats an earlier entry's name; it is one of the
      description's names. */
  function FirstDuplicate(es: seq<Entry>): (r: Option<string>)
    ensures r.Some? ==> r.value in NamesOf(es)
  {
    if es == [] then None
    else match FirstDuplicate(es[..|es| - 1])
      case Some(n) => Some(n)
      case None => if es[|es| - 1].name in NamesOf(es[..|es| - 1]) then Some(es[|es| - 1].name) else None
  }

  /** The first name of `ls` that is not in `names`. */
  function FirstMissing(ls: seq<string>, names: set<string>): (r: Option<string>)
    ensures r.Some? ==> r.value !in names
  {
    if ls == [] then None
    else match FirstMissing(ls[..|ls| - 1], names)
      case Some(n) => Some(n)
      case None => if ls[|ls| - 1] in names then None else Some(ls[|ls| - 1])
  }

  /** The first unresolved link, entry by entry and link by link; it is never
      one of `names`. */
  function MissingLink(es: seq<Entry>, names: set<string>): (r: Option<string>)
    ensures r.Some? ==> r.value !in names
  {
    if es == [] then None
    else match MissingLink(es[..|es| - 1], names)
      case Some(n) => Some(n)
      case None => FirstMissing(Links(es[|es| - 1].joint), names)
  }

  /** NamesOf holds exactly the entries' names. */
  lemma {:induction false} NamesOfMembers(es: seq<Entry>)
    ensures forall i :: 0 <= i < |es| ==> es[i].name in NamesOf(es)
    ensures forall n :: n in NamesOf(es) ==> exists i :: 0 <= i < |es| && es[i].name == n
  {
    if es != [] {
      var pre := es[..|es| - 1];
      NamesOfMembers(pre);
      forall i | 0 <= i < |es| - 1 ensures es[i].name in NamesOf(es) {
        assert pre[i] == es[i];
      }
      forall n | n in NamesOf(es) ensures exists i :: 0 <= i < |es| && es[i].name == n {
        if n in NamesOf(pre) {
          var i :| 0 <= i < |pre| && pre[i].name == n;
          assert es[i] == pre[i];
        } else {
          assert es[|es| - 1].name == n;
        }
      }
    }
  }

  /** FirstRoot finds the first entry marked as root, and finds none exactly
      when no entry is marked. */
  lemma {:induction false} FirstRootIsFirst(es: seq<Entry>)
    ensures FirstRoot(es).Some? ==>
              FirstRoot(es).value < |es| && es[FirstRoot(es).value].joint.isRoot
              && forall j :: 0 <= j < FirstRoot(es).value ==> !es[j].joint.isRoot
    ensures FirstRoot(es).None? <==> forall j :: 0 <= j < |es| ==> !es[j].joint.isRoot
  {
    if es != [] {
      var pre := es[..|es| - 1];
      FirstRootIsFirst(pre);
      assert forall j :: 0 <= j < |pre| ==> pre[j] == es[j];
    }
  }

  /** FirstDuplicate finds nothing exactly when all names differ, and what it
      finds is a name carried by two entries. */
  lemma {:induction false} FirstDuplicateIsRepeat(es: seq<Entry>)
    ensures FirstDuplicate(es).None? <==> forall i, j :: 0 <= i < j < |es| ==> es[i].name != es[j].name
    ensures FirstDuplicate(es).Some? ==>
              exists i, j :: 0 <= i < j < |es| && es[i].name == FirstDuplicate(es).value && es[j].name == es[i].name
  {
    if es != [] {
      var pre := es[..|es| - 1];
      var last := |es| - 1;
      FirstDuplicateIsRepeat(pre);
      NamesOfMembers(pre);
      assert forall j :: 0 <= j < |pre| ==> pre[j] == es[j];
      if FirstDuplicate(pre).None? && es[last].name in NamesOf(pre) {
        var i :| 0 <= i < |pre| && pre[i].name == es[last].name;
        assert es[i].name == es[last].name;
      }
      if FirstDuplicate(es).None? {
        forall i, j | 0 <= i < j < |es| ensures es[i].name != es[j].name {
          if j == last {
            assert es[i].name in NamesOf(pre);
          }
        }
      }
    }
  }

  /** The names of the first `n` entries are pairwise distinct. */
  predicate DistinctUpTo(es: seq<Entry>, n: nat)
    requires n <= |es|
  {
    forall a, b :: 0 <= a < b < n ==> es[a].name != es[b].name
  }

  /** Entry `j` carries the name of some entry before it. */
  predicate RepeatsEarlier(es: seq<Entry>, j: nat)
    requires j < |es|
  {
    exists i :: 0 <= i < j && es[i].name == es[j].name
  }

  /** The reported repeat is the first one: it is the name of an entry that
      repeats an earlier entry's name, and the entries before it all have
      distinct names. */
  lemma {:induction false} FirstDuplicateIsFirst(es: seq<Entry>)
    requires FirstDuplicate(es).Some?
    ensures exists j: nat :: j < |es| && es[j].name == FirstDuplicate(es).value
              && RepeatsEarlier(es, j) && DistinctUpTo(es, j)
  {
    var pre := es[..|es| - 1];
    var last := |es| - 1;
    assert forall k :: 0 <= k < |pre| ==> es[k] == pre[k];
    if FirstDuplicate(pre).Some? {
      FirstDuplicateIsFirst(pre);
      var j: nat :| j < |pre| && pre[j].name == FirstDuplicate(pre).value
                && RepeatsEarlier(pre, j) && DistinctUpTo(pre, j);
      var i :| 0 <= i < j && pre[i].name == pre[j].name;
      assert es[i].name == es[j].name;
      assert DistinctUpTo(es, j);
      assert FirstDuplicate(es).value == es[j].name;
    } else {
      FirstDuplicateIsRepeat(pre);
      NamesOfMembers(pre);
      var i :| 0 <= i < |pre| && pre[i].name == es[last].name;
      assert RepeatsEarlier(es, last);
      assert DistinctUpTo(es, last);
      assert FirstDuplicate(es).value == es[last].name;
    }
  }

  /** FirstMissing finds nothing exactly when every name is known, and what it
      finds is the first unknown name. */
  lemma {:induction false} FirstMissingIsFirst(ls: seq<string>, names: set<string>)
    ensures FirstMissing(ls, names).None? <==> forall k :: 0 <= k < |ls| ==> ls[k] in names
    ensures FirstMissing(ls, names).Some? ==>
              FirstMissing(ls, names).value !in names
              && exists k :: 0 <= k < |ls| && ls[k] == FirstMissing(ls, names).value
                   && forall q :: 0 <= q < k ==> ls[q] in names
  {
    if ls != [] {
      var pre := ls[..|ls| - 1];
      FirstMissingIsFirst(pre, names);
      assert forall j :: 0 <= j < |pre| ==> pre[j] == ls[j];
    }
  }

  /** MissingLink finds nothing exactly when every entry's links resolve. */
  lemma {:induction false} MissingLinkNone(es: seq<Entry>, names: set<string>)
    ensures MissingLink(es, names).None? <==>
              forall i :: 0 <= i < |es| ==> FirstMissing(Links(es[i].joint), names).None?
  {
    if es != [] {
      var pre := es[..|es| - 1];
      MissingLinkNone(pre, names);
      assert forall j :: 0 <= j < |pre| ==> pre[j] == es[j];
    }
  }

  /** The reported link is the first entry's failing link: the entries before
      that entry all resolve. */
  lemma {:induction false} MissingLinkIsFirst(es: seq<Entry>, names: set<string>)
    requires MissingLink(es, names).Some?
    ensures exists i :: 0 <= i < |es| && MissingLink(es, names) == FirstMissing(Links(es[i].joint), names)
              && forall k :: 0 <= k < i ==> FirstMissing(Links(es[k].joint), names).None?
  {
    var pre := es[..|es| - 1];
    assert forall k :: 0 <= k < |pre| ==> pre[k] == es[k];
    if MissingLink(pre, names).Some? {
      MissingLinkIsFirst(pre, names);
      var i :| 0 <= i < |pre| && MissingLink(pre, names) == FirstMissing(Links(pre[i].joint), names)
                && forall k :: 0 <= k < i ==> FirstMissing(Links(pre[k].joint), names).None?;
      assert MissingLink(es, names) == FirstMissing(Links(es[i].joint), names);
    } else {
      MissingLinkNone(pre, names);
    }
  }

  /** The error `createTree` throws on a description, if any, in the order its
      checks run: the root, then repeated names, then unresolved links. */
  function TreeFailure(es: seq<Entry>): (r: Option<TreeError>)
    ensures r.Some? && r.value.JointExistsMultipleTimes? ==> r.value.name in NamesOf(es)
    ensures r.Some? && r.value.LinkedJointNotFound? ==> r.value.name !in NamesOf(es)
  {
    if FirstRoot(es).None? then Some(NoRootJoint)
    else if FirstDuplicate(es).Some? then Some(JointExistsMultipleTimes(FirstDuplicate(es).value))
    else if MissingLink(es, NamesOf(es)).Some? then Some(LinkedJointNotFound(MissingLink(es, NamesOf(es)).value))
    else None
  }

  /** A description is accepted exactly when it has a root entry, its names
      are distinct and every entry's links name entries of the description. */
  lemma TreeFailureNone(es: seq<Entry>)
    ensures TreeFailure(es).None? <==>
      && (exists i :: 0 <= i < |es| && es[i].joint.isRoot)
      && (forall i, j :: 0 <= i < j < |es| ==> es[i].name != es[j].name)
      && (forall i :: 0 <= i < |es| ==> forall k :: 0 <= k < |Links(es[i].joint)| ==> Links(es[i].joint)[k] in NamesOf(es))
  {
    FirstRootIsFirst(es);
    FirstDuplicateIsRepeat(es);
    MissingLinkNone(es, NamesOf(es));
    forall i | 0 <= i < |es|
      ensures FirstMissing(Links(es[i].joint), NamesOf(es)).None? <==>
                forall k :: 0 <= k < |Links(es[i].joint)| ==> Links(es[i].joint)[k] in NamesOf(es)
    {
      FirstMissingIsFirst(Links(es[i].joint), NamesOf(es));
    }
  }

  lemma {:induction false} FirstDuplicatePrefix(es: seq<Entry>, k: nat)
    requires k <= |es| && FirstDuplicate(es[..k]).Some?
    ensures FirstDuplicate(es) == FirstDuplicate(es[..k])
    decreases |es| - k
  {
    if k < |es| {
      var pre := es[..|es| - 1];
      assert pre[..k] == es[..k];
      FirstDuplicatePrefix(pre, k);
    } else {
      assert es[..k] == es;
    }
  }

  lemma {:induction false} FirstMissingPrefix(ls: seq<string>, names: set<string>, k: nat)
    requires k <= |ls| && FirstMissing(ls[..k], names).Some?
    ensures FirstMissing(ls, names) == FirstMissing(ls[..k], names)
    decreases |ls| - k
  {
    if k < |ls| {
      var pre := ls[..|ls| - 1];
      assert pre[..k] == ls[..k];
      FirstMissingPrefix(pre, names, k);
    } else {
      assert ls[..k] == ls;
    }
  }

  lemma {:induction false} MissingLinkPrefix(es: seq<Entry>, names: set<string>, k: nat)
    requires k <= |es| && MissingLink(es[..k], names).Some?
    ensures MissingLink(es, names) == MissingLink(es[..k], names)
    decreases |es| - k
  {
    if k < |es| {
      var pre := es[..|es| - 1];
      assert pre[..k] == es[..k];
      MissingLinkPrefix(pre, names, k);
    } else {
      assert es[..k] == es;
    }
  }

  /** The root entry is one of the entries, so once every entry's links
      resolve, so do the root's: the root phase of `createTree` never throws. */
  lemma RootLinksResolve(es: seq<Entry>, names: set<string>)
    requires FirstRoot(es).Some? && MissingLink(es, names).None?
    ensures forall k :: 0 <= k < |Links(es[FirstRoot(es).value].joint)| ==>
      Links(es[FirstRoot(es).value].joint)[k] in names
  {
    FirstRootIsFirst(es);
    var i := FirstRoot(es).value;
    MissingLinkNone(es, names);
    assert FirstMissing(Links(es[i].joint), names).None?;
    FirstMissingIsFirst(Links(es[i].joint), names);
  }

  /** A node of the tree. Its `joints` are its children, shared with the map
      the tree was built from. */
  class JointNode {
    const name: string
    var angle: Angle
    const constraint: Constraint
    const origin: Position
    var joints: seq<JointNode>

    constructor (name: string, constraint: Constraint, origin: Position)
      ensures this.name == name && angle == Angle(0.0)
      ensures this.constraint == constraint && this.origin == origin
      ensures joints == []
    {
      this.name := name;
      this.angle := Angle(0.0);
      this.constraint := constraint;
      this.origin := origin;
      this.joints := [];
    }
  }

  /** `n` was created from entry `e`: its name, a zero angle, and the entry's
      constraint and origin. */
  ghost predicate NodeOf(n: JointNode, e: Entry)
    reads n`angle
  {
    n.name == e.name && n.angle == Angle(0.0) && n.constraint == e.joint.constraint && n.origin == e.joint.origin
  }

  /** The children of `n` are the nodes named by `names`, in that order. */
  ghost predicate ChildrenAre(n: JointNode, names: seq<string>, nodes: map<string, JointNode>)
    reads n`joints
  {
    |n.joints| == |names| && forall k :: 0 <= k < |names| ==> names[k] in nodes && n.joints[k] == nodes[names[k]]
  }

  /** The tree `createTree` returns for `es`: a root node built from the first
      root entry and separate from the map's nodes, one node per name with its
      children resolved in `linked_to` order. */
  ghost predicate Built(es: seq<Entry>, root: JointNode, nodes: map<string, JointNode>)
    reads root, nodes.Values
  {
    && FirstRoot(es).Some?
    && (forall j :: 0 <= j < |es| ==> es[j].name in nodes)
    && NodeOf(root, es[FirstRoot(es).value])
    && ChildrenAre(root, Links(es[FirstRoot(es).value].joint), nodes)
    && nodes.Keys == NamesOf(es)
    && root !in nodes.Values
    && (forall n :: n in nodes ==> nodes[n].name == n)
    && forall j :: 0 <= j < |es| ==>
         NodeOf(nodes[es[j].name], es[j]) && ChildrenAre(nodes[es[j].name], Links(es[j].joint), nodes)
  }

  /** `joints.find(([, joint]) => joint.is_root)`, as an index. */
  method FindRoot(es: seq<Entry>) returns (r: Option<nat>)
    ensures r == FirstRoot(es)
  {
    FirstRootIsFirst(es);
    var i := 0;
    while i < |es|
      invariant 0 <= i <= |es|
      invariant forall j :: 0 <= j < i ==> !es[j].joint.isRoot
    {
      if es[i].joint.isRoot {
        return Some(i);
      }
      i := i + 1;
    }
    return None;
  }

  /** One node per entry, each with a zero angle and no children; a name
      seen twice throws. */
  method MakeNodes(es: seq<Entry>) returns (r: Result<map<string, JointNode>, TreeError>)
    ensures r.Failure? <==> FirstDuplicate(es).Some?
    ensures r.Failure? ==> r.error == JointExistsMultipleTimes(FirstDuplicate(es).value)
    ensures r.Success? ==> r.value.Keys == NamesOf(es)
    ensures r.Success? ==> forall j :: 0 <= j < |es| ==> es[j].name in r.value
    ensures r.Success? ==> forall n :: n in r.value ==>
      fresh(r.value[n]) && r.value[n].name == n && r.value[n].joints == []
    ensures r.Success? ==> forall j :: 0 <= j < |es| ==> NodeOf(r.value[es[j].name], es[j])
  {
    var jointNodes: map<string, JointNode> := map[];
    var i := 0;
    while i < |es|
      invariant 0 <= i <= |es|
      invariant jointNodes.Keys == NamesOf(es[..i])
      invariant FirstDuplicate(es[..i]).None?
      invariant forall n :: n in jointNodes ==>
        fresh(jointNodes[n]) && jointNodes[n].name == n && jointNodes[n].joints == []
      invariant forall j :: 0 <= j < i ==> es[j].name in jointNodes
      invariant forall j :: 0 <= j < i ==> NodeOf(jointNodes[es[j].name], es[j])
    {
      var e := es[i];
      assert es[..i + 1][..i] == es[..i];
      if e.name in jointNodes {
        FirstDuplicatePrefix(es, i + 1);
        return Failure(JointExistsMultipleTimes(e.name));
      }
      var node := new JointNode(e.name, e.joint.constraint, e.joint.origin);
      jointNodes := jointNodes[e.name := node];
      i := i + 1;
    }
    assert es[..|es|] == es;
    r := Success(jointNodes);
  }

  /** Appends to `node`'s children the nodes named by `links`, in order,
      stopping at the first name that has no node. */
  method LinkChildren(node: JointNode, links: seq<string>, jointNodes: map<string, JointNode>)
      returns (missing: Option<string>)
    requires node.joints == []
    modifies node`joints
    ensures missing == FirstMissing(links, jointNodes.Keys)
    ensures missing.None? ==> ChildrenAre(node, links, jointNodes)
  {
    var k := 0;
    while k < |links|
      invariant 0 <= k <= |links|
      invariant FirstMissing(links[..k], jointNodes.Keys).None?
      invariant |node.joints| == k
      invariant forall q :: 0 <= q < k ==> links[q] in jointNodes && node.joints[q] == jointNodes[links[q]]
    {
      assert links[..k + 1][..k] == links[..k];
      if links[k] !in jointNodes {
        FirstMissingPrefix(links, jointNodes.Keys, k + 1);
        return Some(links[k]);
      }
      node.joints := node.joints + [jointNodes[links[k]]];
      k := k + 1;
    }
    assert links[..|links|] == links;
    missing := None;
  }

  lemma MissingLinkStep(es: seq<Entry>, names: set<string>, i: nat)
    requires i < |es| && MissingLink(es[..i], names).None?
    ensures MissingLink(es[..i + 1], names) == FirstMissing(Links(es[i].joint), names)
  {
    assert es[..i + 1][..i] == es[..i];
  }

  /** Links every node to its children, entry by entry, stopping at the first
      unresolved name. */
  method LinkNodes(es: seq<Entry>, jointNodes: map<string, JointNode>) returns (missing: Option<string>)
    requires forall j :: 0 <= j < |es| ==> es[j].name in jointNodes
    requires forall j, k :: 0 <= j < k < |es| ==> jointNodes[es[j].name] != jointNodes[es[k].name]
    requires forall j :: 0 <= j < |es| ==> jointNodes[es[j].name].joints == []
    modifies jointNodes.Values`joints
    ensures missing == MissingLink(es, jointNodes.Keys)
    ensures missing.None? ==>
      forall j :: 0 <= j < |es| ==> ChildrenAre(jointNodes[es[j].name], Links(es[j].joint), jointNodes)
  {
    var names := jointNodes.Keys;
    var i := 0;
    while i < |es|
      invariant 0 <= i <= |es|
      invariant MissingLink(es[..i], names).None?
      invariant forall j :: 0 <= j < i ==> ChildrenAre(jointNodes[es[j].name], Links(es[j].joint), jointNodes)
      invariant forall j :: i <= j < |es| ==> jointNodes[es[j].name].joints == []
    {
      MissingLinkStep(es, names, i);
      missing := LinkChildren(jointNodes[es[i].name], Links(es[i].joint), jointNodes);
      if missing.Some? {
        MissingLinkPrefix(es, names, i + 1);
        return;
      }
      i := i + 1;
    }
    assert es[..|es|] == es;
    missing := None;
  }

  /** Entries with distinct names get distinct nodes. */
  lemma DistinctNodes(es: seq<Entry>, m: map<string, JointNode>)
    requires FirstDuplicate(es).None?
    requires forall j :: 0 <= j < |es| ==> es[j].name in m && m[es[j].name].name == es[j].name
    ensures forall j, k :: 0 <= j < k < |es| ==> m[es[j].name] != m[es[k].name]
  {
    FirstDuplicateIsRepeat(es);
  }

  /** The linking phases of `createTree`: every node's children, then the
      root's. The root's phase cannot fail once every entry's links resolve. */
  method LinkTree(es: seq<Entry>, ri: nat, rootNode: JointNode, jointNodes: map<string, JointNode>)
      returns (missing: Option<string>)
    requires ri < |es| && FirstRoot(es) == Some(ri)
    requires forall j :: 0 <= j < |es| ==> es[j].name in jointNodes
    requires forall j, k :: 0 <= j < k < |es| ==> jointNodes[es[j].name] != jointNodes[es[k].name]
    requires forall j :: 0 <= j < |es| ==> jointNodes[es[j].name].joints == []
    requires rootNode !in jointNodes.Values && rootNode.joints == []
    modifies rootNode`joints, jointNodes.Values`joints
    ensures missing == MissingLink(es, jointNodes.Keys)
    ensures missing.None? ==> ChildrenAre(rootNode, Links(es[ri].joint), jointNodes)
    ensures missing.None? ==>
      forall j :: 0 <= j < |es| ==> ChildrenAre(jointNodes[es[j].name], Links(es[j].joint), jointNodes)
  {
    missing := LinkNodes(es, jointNodes);
    if missing.Some? {
      return;
    }
    RootLinksResolve(es, jointNodes.Keys);
    FirstMissingIsFirst(Links(es[ri].joint), jointNodes.Keys);
    var rootMissing := LinkChildren(rootNode, Links(es[ri].joint), jointNodes);
    if rootMissing.Some? {
      // Every entry's links, the root entry's included, were resolved above.
      assert false;
    }
  }

  method CreateTree(d: Description) returns (r: Result<JointNode, TreeError>, ghost nodes: map<string, JointNode>)
    ensures r.Failure? <==> TreeFailure(d.joints).Some?
    ensures r.Failure? ==> r.error == TreeFailure(d.joints).value
    ensures r.Success? ==> fresh(r.value) && Built(d.joints, r.value, nodes)
    ensures r.Success? ==> forall n :: n in nodes ==> fresh(nodes[n])
    ensures r.Success? ==> forall j :: 0 <= j < |d.joints| && d.joints[j].joint.linkedTo.None? ==>
      nodes[d.joints[j].name].joints == []
  {
    nodes := map[];
    var es := d.joints;
    var found := FindRoot(es);
    if found.None? {
      return Failure(NoRootJoint), nodes;
    }
    var rootEntry := es[found.value];
    var rootNode: JointNode := new JointNode(rootEntry.name, rootEntry.joint.constraint, rootEntry.joint.origin);

    var made := MakeNodes(es);
    if made.Failure? {
      return Failure(made.error), nodes;
    }
    var jointNodes := made.value;
    DistinctNodes(es, jointNodes);

    var missing := LinkTree(es, found.value, rootNode, jointNodes);
    if missing.Some? {
      return Failure(LinkedJointNotFound(missing.value)), nodes;
    }
    nodes := jointNodes;
    r := Success(rootNode);
  }

  /** The name-to-node map refilled from a list of nodes: each name maps to the
      last node listed under it. */
  ghost function ByName(ns: seq<JointNode>): map<string, JointNode>
    reads ns
  {
    if ns == [] then map[]
    else ByName(ns[..|ns| - 1])[ns[|ns| - 1].name := ns[|ns| - 1]]
  }

  /** The refilled map's keys are exactly the listed nodes' names, and each
      key maps to a listed node of that name. */
  lemma {:induction false} ByNameKeys(ns: seq<JointNode>)
    ensures forall i :: 0 <= i < |ns| ==> ns[i].name in ByName(ns)
    ensures forall x :: x in ByName(ns) ==> ByName(ns)[x].name == x && ByName(ns)[x] in ns
  {
    if ns != [] {
      var pre := ns[..|ns| - 1];
      ByNameKeys(pre);
      assert forall i :: 0 <= i < |pre| ==> pre[i] == ns[i];
    }
  }

  /** A node listed after every other node of its name is the one the map keeps. */
  lemma {:induction false} ByNameKeepsLast(ns: seq<JointNode>, i: nat)
    requires i < |ns| && forall j :: i < j < |ns| ==> ns[j].name != ns[i].name
    ensures ns[i].name in ByName(ns) && ByName(ns)[ns[i].name] == ns[i]
  {
    if i < |ns| - 1 {
      var pre := ns[..|ns| - 1];
      ByNameKeepsLast(pre, i);
    }
  }

  datatype Robot = Robot(information: string, rootJoint: JointNode)

  /** The composable's state: the loaded robot and the name-to-node map. */
  class RobotState {
    var robot: Option<Robot>
    var joints: map<string, JointNode>

    constructor ()
      ensures robot == None && joints == map[]
    {
      robot := None;
      joints := map[];
    }

    /** `joints.clear()`, then one `set` per listed node, in order. */
    method RefillJoints(listed: seq<JointNode>)
      modifies this`joints
      ensures joints == ByName(listed)
    {
      joints := map[];
      var i := 0;
      while i < |listed|
        invariant 0 <= i <= |listed|
        invariant joints == ByName(listed[..i])
      {
        assert listed[..i + 1][..i] == listed[..i];
        joints := joints[listed[i].name := listed[i]];
        i := i + 1;
      }
      assert listed[..|listed|] == listed;
    }

    /** Builds the tree of a loaded description, then clears `joints` and
        refills it from `listAll(root)`. When `createTree` throws, nothing
        changes. */
    method InitRobot(d: Description, listAll: JointNode -> seq<JointNode>)
        returns (r: Result<Robot, TreeError>, ghost nodes: map<string, JointNode>)
      modifies this
      ensures r.Failure? <==> TreeFailure(d.joints).Some?
      ensures r.Failure? ==> r.error == TreeFailure(d.joints).value && robot == old(robot) && joints == old(joints)
      ensures r.Success? ==> fresh(r.value.rootJoint) && r.value.information == d.information && robot == Some(r.value)
      ensures r.Success? ==> Built(d.joints, r.value.rootJoint, nodes)
      ensures r.Success? ==> joints == ByName(listAll(r.value.rootJoint))
    {
      var tree;
      tree, nodes := CreateTree(d);
      if tree.Failure? {
        return Failure(tree.error), nodes;
      }
      var root := tree.value;
      RefillJoints(listAll(root));
      r := Success(Robot(d.information, root));
      robot := Some(r.value);
    }
  }
}
