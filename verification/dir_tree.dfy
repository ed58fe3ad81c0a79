/**
 `list_directories_tree` (move_items.py): from the flat directory listing `iter_dirs`
 yields, build a map from each directory id to its listing entry and the ids of its
 listed children. The listing itself is the method's input.
 */
module DirTree {
  import opened Base
  import opened PathResolve

  /** The value `{'info': ..., 'children': [...]}` stored under a directory id. */
  datatype TreeNode = TreeNode(info: DirEntry, children: seq<int>)

  /** The ids occurring in a listing. */
  function Ids(dirs: seq<DirEntry>): (ids: set<int>)
    ensures forall id :: id in ids <==> exists i :: 0 <= i < |dirs| && dirs[i].id == id
  {
    set i | 0 <= i < |dirs| :: dirs[i].id
  }

  /** The position of the last entry with id `id`: a later entry of the same id
      overwrites the earlier one's `info`. */
  function LastIndexOf(dirs: seq<DirEntry>, id: int): (r: Option<nat>)
    ensures r.Some? ==> r.value < |dirs| && dirs[r.value].id == id
                        && forall j :: r.value < j < |dirs| ==> dirs[j].id != id
    ensures r.None? <==> forall j :: 0 <= j < |dirs| ==> dirs[j].id != id
  {
    if dirs == [] then None
    else if dirs[|dirs| - 1].id == id then Some(|dirs| - 1)
    else LastIndexOf(dirs[..|dirs| - 1], id)
  }

  /** The children recorded for `p`: the ids of the entries whose `parent_id` is `p`,
      in listing order, repeats included. `ChildrenAreParentLinks` proves membership in
      both directions. */
  function ChildrenOf(dirs: seq<DirEntry>, p: int): (cs: seq<int>)
    ensures |cs| <= |dirs|
  {
    if dirs == [] then []
    else
      var n := |dirs| - 1;
      var init := ChildrenOf(dirs[..n], p);
      if dirs[n].parentId == Some(p) then init + [dirs[n].id] else init
  }

  /** The children of `p` are exactly the ids of the entries listing `p` as their parent. */
  lemma {:induction false} ChildrenAreParentLinks(dirs: seq<DirEntry>, p: int)
    ensures forall i :: 0 <= i < |dirs| && dirs[i].parentId == Some(p) ==> dirs[i].id in ChildrenOf(dirs, p)
    ensures forall c :: c in ChildrenOf(dirs, p) ==>
              exists i :: 0 <= i < |dirs| && dirs[i].id == c && dirs[i].parentId == Some(p)
  {
    if dirs != [] {
      var n := |dirs| - 1;
      ChildrenAreParentLinks(dirs[..n], p);
      assert forall i :: 0 <= i < n ==> dirs[..n][i] == dirs[i];
    }
  }

  /** `list_directories_tree(cid)` over the listing `dirs`: the keys are the listed ids,
      each key holds the last entry listed under it, and its children are the listed
      directories naming it as parent. A `parent_id` that is not a listed id is dropped. */
  method ListDirectoriesTree(dirs: seq<DirEntry>) returns (tree: map<int, TreeNode>)
    ensures tree.Keys == Ids(dirs)
    ensures forall id :: id in tree ==>
              && LastIndexOf(dirs, id).Some?
              && tree[id].info == dirs[LastIndexOf(dirs, id).value]
              && tree[id].children == ChildrenOf(dirs, id)
  {
    var nodes := IndexDirectories(dirs);
    tree := LinkChildren(dirs, nodes);
  }

  /** The first loop: one node per listed id, holding the last entry listed under it
      and no children yet. */
  method IndexDirectories(dirs: seq<DirEntry>) returns (tree: map<int, TreeNode>)
    ensures tree.Keys == Ids(dirs)
    ensures forall id :: id in tree ==> LastIndexOf(dirs, id).Some?
    ensures forall id :: id in tree ==> tree[id].info == dirs[LastIndexOf(dirs, id).value]
    ensures forall id :: id in tree ==> tree[id].children == []
  {
    tree := map[];
    var i := 0;
    while i < |dirs|
      invariant 0 <= i <= |dirs|
      invariant tree.Keys == Ids(dirs[..i])
      invariant forall id :: id in tree ==> LastIndexOf(dirs[..i], id).Some?
      invariant forall id :: id in tree ==> tree[id].info == dirs[LastIndexOf(dirs[..i], id).value]
      invariant forall id :: id in tree ==> tree[id].children == []
    {
      IdsSnoc(dirs, i);
      forall id {
        LastIndexOfSnoc(dirs, i, id);
      }
      tree := tree[dirs[i].id := TreeNode(dirs[i], [])];
      i := i + 1;
    }
    assert dirs[..i] == dirs;
  }

  /** The second loop: each entry whose parent is a key is appended to that parent's
      children; nothing else changes. */
  method LinkChildren(dirs: seq<DirEntry>, nodes: map<int, TreeNode>) returns (tree: map<int, TreeNode>)
    requires forall id :: id in nodes ==> nodes[id].children == []
    ensures tree.Keys == nodes.Keys
    ensures forall id :: id in tree ==> tree[id].info == nodes[id].info
    ensures forall id :: id in tree ==> tree[id].children == ChildrenOf(dirs, id)
  {
    tree := nodes;
    var i := 0;
    assert dirs[..0] == [];
    while i < |dirs|
      invariant 0 <= i <= |dirs|
      invariant tree.Keys == nodes.Keys
      invariant forall id :: id in tree ==> tree[id].info == nodes[id].info
      invariant forall id :: id in tree ==> tree[id].children == ChildrenOf(dirs[..i], id)
    {
      var d := dirs[i];
      ghost var before := tree;
      if d.parentId.Some? && d.parentId.value in tree {
        var p := d.parentId.value;
        tree := tree[p := tree[p].(children := tree[p].children + [d.id])];
      }
      LinkStep(dirs, i, nodes, before, tree);
      i := i + 1;
    }
    assert dirs[..i] == dirs;
  }

  /** One turn of the second loop keeps the keys and entries and extends the children
      lists from the first `i` entries to the first `i + 1`. */
  lemma LinkStep(dirs: seq<DirEntry>, i: nat, nodes: map<int, TreeNode>, before: map<int, TreeNode>, after: map<int, TreeNode>)
    requires i < |dirs|
    requires before.Keys == nodes.Keys
    requires forall id :: id in before ==> before[id].info == nodes[id].info
    requires forall id :: id in before ==> before[id].children == ChildrenOf(dirs[..i], id)
    requires var d := dirs[i];
             after == if d.parentId.Some? && d.parentId.value in before
                      then before[d.parentId.value := before[d.parentId.value].(children := before[d.parentId.value].children + [d.id])]
                      else before
    ensures after.Keys == nodes.Keys
    ensures forall id :: id in after ==> after[id].info == nodes[id].info
    ensures forall id :: id in after ==> after[id].children == ChildrenOf(dirs[..i + 1], id)
  {
    var d := dirs[i];
    forall id | id in after
      ensures after[id].info == nodes[id].info
      ensures after[id].children == ChildrenOf(dirs[..i + 1], id)
    {
      ChildrenOfSnoc(dirs, i, id);
      if d.parentId == Some(id) {
        assert after[id].children == before[id].children + [d.id];
      } else {
        assert after[id] == before[id];
      }
    }
  }

  lemma IdsSnoc(dirs: seq<DirEntry>, i: nat)
    requires i < |dirs|
    ensures Ids(dirs[..i + 1]) == Ids(dirs[..i]) + {dirs[i].id}
  {
    assert dirs[..i + 1][i] == dirs[i];
  }

  lemma LastIndexOfSnoc(dirs: seq<DirEntry>, i: nat, id: int)
    requires i < |dirs|
    ensures LastIndexOf(dirs[..i + 1], id) == if dirs[i].id == id then Some(i) else LastIndexOf(dirs[..i], id)
  {
    assert dirs[..i + 1][..i] == dirs[..i];
  }

  lemma ChildrenOfSnoc(dirs: seq<DirEntry>, i: nat, p: int)
    requires i < |dirs|
    ensures ChildrenOf(dirs[..i + 1], p) ==
            ChildrenOf(dirs[..i], p) + if dirs[i].parentId == Some(p) then [dirs[i].id] else []
  {
    assert dirs[..i + 1][..i] == dirs[..i];
  }
}
