/**
 `find_directory_by_path` (move_items.py and move_items_docker.py, identical logic):
 a slash-separated path is resolved one segment at a time, starting from
 `start_cid`, by taking the first listed directory whose name equals the segment.
 The directories `iter_dirs(client, cid)` yields, in their order, are the parameter
 `children(cid)`; nothing is assumed about how deep that listing reaches.
 */
module PathResolve {
  import opened Base
  import opened Text

  /** A directory dictionary yielded by `iter_dirs`: its id, its `parent_id` (which may
      be missing) and its name. Path resolution reads only the id and the name. */
  datatype DirEntry = DirEntry(id: int, parentId: Option<int>, name: string)

  /** Python's `sep.join(parts)`. */
  function Join(parts: seq<string>, sep: char): string
    requires |parts| >= 1
  {
    if |parts| == 1 then parts[0] else parts[0] + [sep] + Join(parts[1..], sep)
  }

  /** Python's `s.split(sep)`: the pieces between separators, empty ones included;
      the pieces hold no separator and joining them gives `s` back. */
  function Split(s: string, sep: char): (parts: seq<string>)
    ensures |parts| >= 1
    ensures forall i :: 0 <= i < |parts| ==> sep !in parts[i]
    ensures Join(parts, sep) == s
  {
    if s == [] then [[]]
    else
      var rest := Split(s[1..], sep);
      if s[0] == sep then
        assert [sep] + s[1..] == s;
        [[]] + rest
      else
        var parts := [[s[0]] + rest[0]] + rest[1..];
        assert parts[1..] == rest[1..];
        assert [s[0]] + s[1..] == s;
        parts
  }

  /** Splitting what was joined gives the pieces back, when no piece holds the separator. */
  lemma {:induction false} SplitJoin(parts: seq<string>, sep: char)
    requires |parts| >= 1
    requires forall i :: 0 <= i < |parts| ==> sep !in parts[i]
    ensures Split(Join(parts, sep), sep) == parts
    decreases |Join(parts, sep)|
  {
    var s := Join(parts, sep);
    if parts[0] == [] {
      if |parts| > 1 {
        assert s == [sep] + Join(parts[1..], sep);
        assert s[1..] == Join(parts[1..], sep);
        SplitJoin(parts[1..], sep);
        assert [[]] + parts[1..] == parts;
      }
    } else {
      var c := parts[0][0];
      var shorter := [parts[0][1..]] + parts[1..];
      assert shorter[1..] == parts[1..];
      assert parts[0] == [c] + parts[0][1..];
      assert s == [c] + Join(shorter, sep) by {
        if |parts| > 1 {
          assert parts[0] == [c] + parts[0][1..];
        }
      }
      assert s[1..] == Join(shorter, sep);
      assert sep !in shorter[0] by {
        assert forall x :: x in shorter[0] ==> x in parts[0];
      }
      SplitJoin(shorter, sep);
      assert [[c] + parts[0][1..]] + parts[1..] == parts;
    }
  }

  lemma {:induction false} JoinSnoc(parts: seq<string>, last: string, sep: char)
    requires |parts| >= 1
    ensures Join(parts + [last], sep) == Join(parts, sep) + [sep] + last
    decreases |parts|
  {
    if |parts| > 1 {
      assert (parts + [last])[1..] == parts[1..] + [last];
      JoinSnoc(parts[1..], last, sep);
    }
  }

  /** A separator in front adds an empty first piece; one at the end adds an empty last piece. */
  lemma SplitOuterSeparators(s: string, sep: char)
    ensures Split([sep] + s, sep) == [[]] + Split(s, sep)
    ensures Split(s + [sep], sep) == Split(s, sep) + [[]]
  {
    assert ([sep] + s)[1..] == s;
    var parts := Split(s, sep);
    JoinSnoc(parts, [], sep);
    assert Join(parts + [[]], sep) == s + [sep];
    SplitJoin(parts + [[]], sep);
  }

  /** The non-empty strings of `parts`, in order: `[p for p in parts if p]`. */
  function NonEmpty(parts: seq<string>): (r: seq<string>)
    ensures |r| <= |parts|
    ensures forall i :: 0 <= i < |r| ==> r[i] != [] && r[i] in parts
    ensures [] !in r
    ensures forall x :: x != [] ==> multiset(r)[x] == multiset(parts)[x]
  {
    if parts == [] then []
    else
      assert parts == [parts[0]] + parts[1..];
      if parts[0] == [] then NonEmpty(parts[1..])
      else [parts[0]] + NonEmpty(parts[1..])
  }

  /** An independent description of what the filter keeps: the positions, in increasing
      order, of exactly the non-empty pieces. */
  function NonEmptyIndices(parts: seq<string>): (ix: seq<nat>)
    ensures forall k :: 0 <= k < |ix| ==> ix[k] < |parts|
    ensures forall k, l :: 0 <= k < l < |ix| ==> ix[k] < ix[l]
    ensures forall i :: 0 <= i < |parts| ==> (i in ix <==> parts[i] != [])
  {
    if parts == [] then []
    else
      var n := |parts| - 1;
      var init := NonEmptyIndices(parts[..n]);
      assert forall i :: 0 <= i < n ==> parts[..n][i] == parts[i];
      if parts[n] != [] then init + [n] else init
  }

  /** The filter keeps the non-empty pieces in their order: its k-th result is the piece
      at the k-th non-empty position. */
  lemma {:induction false} NonEmptyKeepsOrder(parts: seq<string>)
    ensures var ix := NonEmptyIndices(parts);
            var r := NonEmpty(parts);
            && |r| == |ix|
            && forall k :: 0 <= k < |ix| ==> r[k] == parts[ix[k]]
  {
    if parts != [] {
      var n := |parts| - 1;
      var init := parts[..n];
      NonEmptyKeepsOrder(init);
      NonEmptyLast(parts);
      NonEmptyIndicesLast(parts);
      var ix0, r0 := NonEmptyIndices(init), NonEmpty(init);
      var ix, r := NonEmptyIndices(parts), NonEmpty(parts);
      forall k | 0 <= k < |ix|
        ensures r[k] == parts[ix[k]]
      {
        if k < |ix0| {
          assert r[k] == r0[k] && ix[k] == ix0[k];
          assert init[ix0[k]] == parts[ix0[k]];
        }
      }
    }
  }

  /** The kept positions of a list are those of all but its last piece, then the last
      position when that piece is non-empty. */
  lemma NonEmptyIndicesLast(parts: seq<string>)
    requires parts != []
    ensures var n := |parts| - 1;
            NonEmptyIndices(parts) == NonEmptyIndices(parts[..n]) + (if parts[n] != [] then [n] else [])
  {
  }

  /** Filtering a list is filtering all but its last piece, then keeping that piece
      when it is non-empty. */
  lemma NonEmptyLast(parts: seq<string>)
    requires parts != []
    ensures var n := |parts| - 1;
            NonEmpty(parts) == NonEmpty(parts[..n]) + (if parts[n] != [] then [parts[n]] else [])
  {
    var n := |parts| - 1;
    var init, last := parts[..n], [parts[n]];
    assert init + last == parts;
    NonEmptyAppend(init, last);
    NonEmptySingle(parts[n]);
  }

  /** A single piece is kept exactly when it is non-empty. */
  lemma NonEmptySingle(x: string)
    ensures NonEmpty([x]) == if x != [] then [x] else []
  {
    assert [x][1..] == [];
  }

  lemma {:induction false} NonEmptyAppend(a: seq<string>, b: seq<string>)
    ensures NonEmpty(a + b) == NonEmpty(a) + NonEmpty(b)
    decreases |a|
  {
    if a == [] {
      assert a + b == b;
    } else {
      assert (a + b)[1..] == a[1..] + b;
      NonEmptyAppend(a[1..], b);
    }
  }

  /** `[p for p in path.strip('/').split('/') if p]`. */
  function Segments(p: string): (segs: seq<string>)
    ensures forall i :: 0 <= i < |segs| ==> segs[i] != [] && '/' !in segs[i]
  {
    var parts := Split(StripWhere(p, IsSlash), '/');
    assert forall x :: x in parts ==> '/' !in x;
    NonEmpty(parts)
  }

  /** Removing slashes at either end first changes nothing: the segments are exactly
      the non-empty pieces between slashes of the whole path. */
  lemma SegmentsArePieces(p: string)
    ensures Segments(p) == NonEmpty(Split(p, '/'))
  {
    var lo := LeadingRun(p, IsSlash);
    var core := StripWhere(p, IsSlash);
    var hi := lo + |core|;
    assert p == p[..lo] + core + p[hi..];
    NonEmptyIgnoresOuterSlashes(p[..lo], core, p[hi..]);
  }

  lemma {:induction false} NonEmptyIgnoresOuterSlashes(lead: string, core: string, trail: string)
    requires forall i :: 0 <= i < |lead| ==> lead[i] == '/'
    requires forall i :: 0 <= i < |trail| ==> trail[i] == '/'
    ensures NonEmpty(Split(lead + core + trail, '/')) == NonEmpty(Split(core, '/'))
    decreases |lead| + |trail|
  {
    if lead != [] {
      assert lead + core + trail == ['/'] + (lead[1..] + core + trail);
      SplitOuterSeparators(lead[1..] + core + trail, '/');
      NonEmptyAppend([[]], Split(lead[1..] + core + trail, '/'));
      NonEmptyIgnoresOuterSlashes(lead[1..], core, trail);
    } else if trail != [] {
      var front := trail[..|trail| - 1];
      assert lead + core + trail == (core + front) + ['/'];
      assert lead + core + front == core + front;
      SplitOuterSeparators(core + front, '/');
      NonEmptyAppend(Split(core + front, '/'), [[]]);
      NonEmptyIgnoresOuterSlashes(lead, core, front);
    } else {
      assert lead + core + trail == core;
    }
  }

  /** The position of the first entry whose name equals `name` exactly (case-sensitive,
      whole name), as the `for ... if name == folder_name: ... break` loop finds it. */
  function FirstNamed(entries: seq<DirEntry>, name: string): (r: Option<nat>)
    ensures r.Some? ==> r.value < |entries| && entries[r.value].name == name
                        && forall j :: 0 <= j < r.value ==> entries[j].name != name
    ensures r.None? ==> forall j :: 0 <= j < |entries| ==> entries[j].name != name
  {
    if entries == [] then None
    else if entries[0].name == name then Some(0)
    else
      match FirstNamed(entries[1..], name)
      case None => None
      case Some(k) => Some(k + 1)
  }

  /** The segment-by-segment descent from `cur`: `None` as soon as a segment has no match. */
  function Walk(cur: int, segs: seq<string>, children: int -> seq<DirEntry>): Option<int>
    decreases |segs|
  {
    if segs == [] then Some(cur)
    else
      match FirstNamed(children(cur), segs[0])
      case None => None
      case Some(k) => Walk(children(cur)[k].id, segs[1..], children)
  }

  /** `find_directory_by_path(path, start_cid)`. */
  function FindDirectoryByPath(path: string, startCid: int, children: int -> seq<DirEntry>): (r: Option<int>)
    ensures Strip(path) == "" || Strip(path) == "/" ==> r == Some(0)
    ensures Strip(path) != "" && Strip(path) != "/" ==> r == Walk(startCid, Segments(Strip(path)), children)
  {
    var p := Strip(path);
    if p == "" || p == "/" then Some(0)
    else
      var parts := Segments(p);
      if parts == [] then Some(startCid)
      else Walk(startCid, parts, children)
  }

  /** Resolving a concatenation of segment lists is resolving the first list, then the
      second from where the first ended. */
  lemma {:induction false} WalkAppend(cur: int, a: seq<string>, b: seq<string>, children: int -> seq<DirEntry>)
    ensures Walk(cur, a + b, children) ==
            match Walk(cur, a, children)
            case None => None
            case Some(m) => Walk(m, b, children)
    decreases |a|
  {
    if a == [] {
      assert a + b == b;
    } else {
      assert (a + b)[0] == a[0];
      assert (a + b)[1..] == a[1..] + b;
      match FirstNamed(children(cur), a[0])
      case None =>
      case Some(k) => WalkAppend(children(cur)[k].id, a[1..], b, children);
    }
  }

  /** A path that is empty or "/" after trimming whitespace resolves to the root 0,
      whatever the start directory. */
  lemma RootPath(path: string, startCid: int, children: int -> seq<DirEntry>)
    requires Strip(path) == "" || Strip(path) == "/"
    ensures FindDirectoryByPath(path, startCid, children) == Some(0)
  {
  }

  /** A path made only of slashes, other than "/" itself (for instance "//"), resolves
      to the start directory, not to the root. */
  lemma {:induction false} OnlySlashesPath(path: string, startCid: int, children: int -> seq<DirEntry>)
    requires Strip(path) != "" && Strip(path) != "/"
    requires forall i :: 0 <= i < |Strip(path)| ==> Strip(path)[i] == '/'
    ensures FindDirectoryByPath(path, startCid, children) == Some(startCid)
  {
    var p := Strip(path);
    assert StripWhere(p, IsSlash) == [];
    assert Split([], '/') == [[]];
    assert Segments(p) == [];
  }

  /** If, after the first `k` segments resolved to `m`, the next segment names no child
      of `m`, the whole lookup fails: no partial id is returned. */
  lemma MissingSegment(cur: int, segs: seq<string>, k: nat, m: int, children: int -> seq<DirEntry>)
    requires k < |segs|
    requires Walk(cur, segs[..k], children) == Some(m)
    requires forall j :: 0 <= j < |children(m)| ==> children(m)[j].name != segs[k]
    ensures Walk(cur, segs, children) == None
  {
    assert segs == segs[..k] + segs[k..];
    WalkAppend(cur, segs[..k], segs[k..], children);
    assert segs[k..][0] == segs[k];
  }

  /** Segment `k` was taken: the first `k` segments resolved to some `m`, `m` has a child
      named exactly `segs[k]`, and the first `k + 1` segments resolve to the first such child. */
  predicate StepTaken(cur: int, segs: seq<string>, k: nat, children: int -> seq<DirEntry>)
    requires k < |segs|
  {
    match Walk(cur, segs[..k], children)
    case None => false
    case Some(m) =>
      match FirstNamed(children(m), segs[k])
      case None => false
      case Some(j) => Walk(cur, segs[..k + 1], children) == Some(children(m)[j].id)
  }

  /** A successful lookup went through every segment: each prefix of the segments
      resolved, and each step took the first child named exactly as the segment. */
  lemma ResolvedChain(cur: int, segs: seq<string>, r: int, children: int -> seq<DirEntry>)
    requires Walk(cur, segs, children) == Some(r)
    ensures forall k :: 0 <= k < |segs| ==> StepTaken(cur, segs, k, children)
  {
    forall k | 0 <= k < |segs|
      ensures StepTaken(cur, segs, k, children)
    {
      assert segs == segs[..k] + segs[k..];
      WalkAppend(cur, segs[..k], segs[k..], children);
      assert segs[k..][0] == segs[k];
      assert segs[..k + 1] == segs[..k] + [segs[k]];
      WalkAppend(cur, segs[..k], [segs[k]], children);
    }
  }
}
