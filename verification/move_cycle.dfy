/**
 `auto_move_files_task` (move_items.py and move_items_docker.py): resolve the source
 and target paths once, then repeat a cycle that lists the source tree, keeps the
 files of at least the minimum size, in listing order, and moves them one by one,
 counting successes and failures. The listing (`iter_files`), the directory listing
 (`iter_dirs`) and the move call are parameters; the loop runs a given number of
 cycles before the interrupt that stops it.
 */
module MoveCycle {
  import opened Base
  import opened Remote
  import opened PathResolve

  /** A dictionary yielded by `iter_files`; the optional keys may be missing. */
  datatype FileInfo = FileInfo(id: int, name: Option<string>, size: Option<int>, path: Option<string>)

  /** `file_info.get('size', 0)`. */
  function SizeOf(f: FileInfo): int {
    f.size.GetOr(0)
  }

  /** `file_info.get('name', '')`. */
  function NameOf(f: FileInfo): string {
    f.name.GetOr("")
  }

  /** `file_info.get('path', '')`. */
  function PathOf(f: FileInfo): string {
    f.path.GetOr("")
  }

  /** An entry of `files_to_move`. */
  datatype Candidate = Candidate(id: int, name: string, size: int, path: string, displayPath: string)

  /** The entry built for a kept file: the path is shown, or the name when the path is empty. */
  function ToCandidate(f: FileInfo): Candidate {
    var display := if PathOf(f) != "" then PathOf(f) else NameOf(f);
    Candidate(f.id, NameOf(f), SizeOf(f), PathOf(f), display)
  }

  /** `file_info.get('display_path') or file_info.get('name', ...)`, the label of a move. */
  function DisplayInfo(c: Candidate): string {
    if c.displayPath != "" then c.displayPath else c.name
  }

  /** The second fallback to the name never changes the label: the display path is
      already the name whenever the path is empty. */
  lemma DisplayFallbackRedundant(f: FileInfo)
    ensures DisplayInfo(ToCandidate(f)) == ToCandidate(f).displayPath
    ensures ToCandidate(f).displayPath == "" <==> PathOf(f) == "" && NameOf(f) == ""
  {
  }

  /** `files_to_move` after the scan loop: one entry per listed file with
      `file_size >= min_size_bytes`, appended in listing order. */
  function Candidates(files: seq<FileInfo>, minSize: int): (cs: seq<Candidate>)
    ensures |cs| <= |files|
    ensures forall k :: 0 <= k < |cs| ==> cs[k].size >= minSize
  {
    if files == [] then []
    else
      var init := Candidates(files[..|files| - 1], minSize);
      var f := files[|files| - 1];
      if SizeOf(f) >= minSize then init + [ToCandidate(f)] else init
  }

  /** An independent description of the kept files: the positions, in increasing order,
      of exactly the files whose size reaches the minimum (the bound is inclusive). */
  function KeptIndices(files: seq<FileInfo>, minSize: int): (ix: seq<nat>)
    ensures forall k :: 0 <= k < |ix| ==> ix[k] < |files|
    ensures forall k, l :: 0 <= k < l < |ix| ==> ix[k] < ix[l]
    ensures forall i :: 0 <= i < |files| ==> (i in ix <==> SizeOf(files[i]) >= minSize)
  {
    if files == [] then []
    else
      var n := |files| - 1;
      var init := KeptIndices(files[..n], minSize);
      assert forall i :: 0 <= i < n ==> files[..n][i] == files[i];
      if SizeOf(files[n]) >= minSize then init + [n] else init
  }

  /** The candidates are the kept files, in listing order, each turned into its entry. */
  lemma {:induction false} CandidatesAreKeptFiles(files: seq<FileInfo>, minSize: int)
    ensures var ix := KeptIndices(files, minSize);
            var cs := Candidates(files, minSize);
            && |cs| == |ix|
            && forall k :: 0 <= k < |ix| ==> cs[k] == ToCandidate(files[ix[k]])
  {
    if files != [] {
      var n := |files| - 1;
      CandidatesAreKeptFiles(files[..n], minSize);
      KeptStep(files, minSize);
    }
  }

  /** One step of the scan: the kept positions and candidates of `files` extend those of
      all but its last file by the last file when it is kept. */
  lemma KeptStep(files: seq<FileInfo>, minSize: int)
    requires files != []
    requires var n := |files| - 1;
             var ix0 := KeptIndices(files[..n], minSize);
             var cs0 := Candidates(files[..n], minSize);
             |cs0| == |ix0| && forall k :: 0 <= k < |ix0| ==> cs0[k] == ToCandidate(files[..n][ix0[k]])
    ensures var ix := KeptIndices(files, minSize);
            var cs := Candidates(files, minSize);
            && |cs| == |ix|
            && forall k :: 0 <= k < |ix| ==> cs[k] == ToCandidate(files[ix[k]])
  {
    var n := |files| - 1;
    var ix0 := KeptIndices(files[..n], minSize);
    var cs0 := Candidates(files[..n], minSize);
    assert forall k :: 0 <= k < |ix0| ==> files[..n][ix0[k]] == files[ix0[k]];
    if SizeOf(files[n]) >= minSize {
      assert KeptIndices(files, minSize) == ix0 + [n];
      assert Candidates(files, minSize) == cs0 + [ToCandidate(files[n])];
    } else {
      assert KeptIndices(files, minSize) == ix0;
      assert Candidates(files, minSize) == cs0;
    }
  }

  /** Scanning two listings one after the other keeps the candidates of each, in order. */
  lemma {:induction false} CandidatesOfConcat(a: seq<FileInfo>, b: seq<FileInfo>, minSize: int)
    ensures Candidates(a + b, minSize) == Candidates(a, minSize) + Candidates(b, minSize)
    decreases |b|
  {
    if b == [] {
      assert a + b == a;
    } else {
      var n := |b| - 1;
      assert (a + b)[..|a + b| - 1] == a + b[..n];
      assert (a + b)[|a + b| - 1] == b[n];
      CandidatesOfConcat(a, b[..n], minSize);
    }
  }

  /** What the move function is asked: in cycle `cycle`, the `index`-th candidate's id
      is moved into `target`. Its answer may differ from one request to the next. */
  datatype MoveRequest = MoveRequest(cycle: nat, index: nat, fileId: int, target: int)

  /** One call of `move_files(file_info['id'], target_cid)` and its answer. */
  datatype MoveAttempt = MoveAttempt(fileId: int, target: int, reply: MoveReply)

  /** The move loop: every candidate is moved once, in order, into the target. */
  function MoveAll(cs: seq<Candidate>, target: int, cycle: nat, move: MoveRequest -> MoveReply)
    : (attempts: seq<MoveAttempt>)
    ensures |attempts| == |cs|
    ensures forall k :: 0 <= k < |cs| ==>
              && attempts[k].fileId == cs[k].id
              && attempts[k].target == target
              && attempts[k].reply == move(MoveRequest(cycle, k, cs[k].id, target))
  {
    seq(|cs|, k requires 0 <= k < |cs| => MoveAttempt(cs[k].id, target, move(MoveRequest(cycle, k, cs[k].id, target))))
  }

  /** An independent count of the accepted moves, read from the front. */
  function CountMoved(attempts: seq<MoveAttempt>): (n: nat)
    ensures n <= |attempts|
  {
    if attempts == [] then 0
    else (if attempts[0].reply.Moved? then 1 else 0) + CountMoved(attempts[1..])
  }

  /** Counting from the front agrees with adding the last attempt to the count of the rest. */
  lemma {:induction false} CountMovedSnoc(attempts: seq<MoveAttempt>)
    requires attempts != []
    ensures var n := |attempts| - 1;
            CountMoved(attempts) == CountMoved(attempts[..n]) + (if attempts[n].reply.Moved? then 1 else 0)
  {
    var n := |attempts| - 1;
    if n > 0 {
      assert attempts[1..][..n - 1] == attempts[..n][1..];
      assert attempts[..n][0] == attempts[0];
      CountMovedSnoc(attempts[1..]);
    }
  }

  /** `(success_count, fail_count)` after the move loop: a truthy state counts as a
      success, anything else (an error reply or a caught exception) as a failure. */
  function Tally(attempts: seq<MoveAttempt>): (t: (nat, nat))
    ensures t.0 == CountMoved(attempts)
    ensures t.0 + t.1 == |attempts|
    ensures t.1 == 0 <==> forall k :: 0 <= k < |attempts| ==> attempts[k].reply.Moved?
    ensures t.0 == 0 <==> forall k :: 0 <= k < |attempts| ==> attempts[k].reply.NotMoved?
  {
    if attempts == [] then (0, 0)
    else
      var n := |attempts| - 1;
      var t := Tally(attempts[..n]);
      assert forall k :: 0 <= k < n ==> attempts[..n][k] == attempts[k];
      CountMovedSnoc(attempts);
      if attempts[n].reply.Moved? then (t.0 + 1, t.1) else (t.0, t.1 + 1)
  }

  /** Counting two runs of attempts one after the other adds their counts. */
  lemma {:induction false} TallyOfConcat(a: seq<MoveAttempt>, b: seq<MoveAttempt>)
    ensures Tally(a + b).0 == Tally(a).0 + Tally(b).0
    ensures Tally(a + b).1 == Tally(a).1 + Tally(b).1
    decreases |b|
  {
    if b == [] {
      assert a + b == a;
    } else {
      var n := |b| - 1;
      assert (a + b)[..|a + b| - 1] == a + b[..n];
      assert (a + b)[|a + b| - 1] == b[n];
      TallyOfConcat(a, b[..n]);
    }
  }

  /** What one cycle did: how many files it listed, the candidates, the moves and their counts. */
  datatype CycleReport = CycleReport(
    totalFiles: nat,
    candidates: seq<Candidate>,
    attempts: seq<MoveAttempt>,
    succeeded: nat,
    failed: nat)

  /** A cycle either lists the source (`Scanned`) or the listing raises and the cycle's
      `except` ends it without moving anything (`ScanFailed`). */
  datatype CycleResult = ScanFailed | Scanned(report: CycleReport)

  /** One pass of the `while True` body, numbered `cycle`. */
  function RunCycle(listing: Option<seq<FileInfo>>, minSize: int, target: int, cycle: nat,
                    move: MoveRequest -> MoveReply): (r: CycleResult)
    ensures r.ScanFailed? <==> listing.None?
    ensures r.Scanned? ==>
              var rep := r.report;
              && rep.totalFiles == |listing.value|
              && rep.candidates == Candidates(listing.value, minSize)
              && |rep.attempts| == |rep.candidates|
              && rep.succeeded == CountMoved(rep.attempts)
              && rep.succeeded + rep.failed == |rep.candidates|
              && (forall k :: 0 <= k < |rep.attempts| ==>
                    && rep.attempts[k].fileId == rep.candidates[k].id
                    && rep.attempts[k].target == target
                    && rep.attempts[k].reply == move(MoveRequest(cycle, k, rep.candidates[k].id, target)))
  {
    match listing
    case None => ScanFailed
    case Some(files) =>
      var cs := Candidates(files, minSize);
      var attempts := MoveAll(cs, target, cycle, move);
      var t := Tally(attempts);
      Scanned(CycleReport(|files|, cs, attempts, t.0, t.1))
  }

  /** A cycle whose listing has no file of the minimum size makes no move. */
  lemma NothingToMove(files: seq<FileInfo>, minSize: int, target: int, cycle: nat, move: MoveRequest -> MoveReply)
    requires forall i :: 0 <= i < |files| ==> SizeOf(files[i]) < minSize
    ensures var r := RunCycle(Some(files), minSize, target, cycle, move);
            r.Scanned? && r.report.attempts == [] && r.report.succeeded == 0 && r.report.failed == 0
  {
    CandidatesAreKeptFiles(files, minSize);
    var ix := KeptIndices(files, minSize);
    assert forall k :: 0 <= k < |ix| ==> ix[k] in ix;
  }

  /** How `auto_move_files_task` ends: a path that does not resolve returns `False`
      before any cycle; otherwise the cycles run until the interrupt, which returns `True`. */
  datatype TaskOutcome =
    | SourceNotFound
    | TargetNotFound
    | Interrupted(sourceCid: int, targetCid: int, cycles: seq<CycleResult>)

  /** The value `auto_move_files_task` returns. */
  function Returned(o: TaskOutcome): (b: bool)
    ensures b <==> !(o.SourceNotFound? || o.TargetNotFound?)
  {
    o.Interrupted?
  }

  /** `auto_move_files_task(source_path, target_path, interval, min_size_bytes)`,
      interrupted after `cycles` cycles. Paths resolve from the root with the directory
      listing `children`; cycle `c` (counted from 1, as `run_count`) lists the source
      with `scan(c, source_cid)`. */
  function AutoMoveTask(sourcePath: string, targetPath: string, minSize: int, cycles: nat,
                        children: int -> seq<DirEntry>,
                        scan: (nat, int) -> Option<seq<FileInfo>>,
                        move: MoveRequest -> MoveReply): (o: TaskOutcome)
    ensures o == SourceNotFound <==> FindDirectoryByPath(sourcePath, 0, children).None?
    ensures o == TargetNotFound <==>
              FindDirectoryByPath(sourcePath, 0, children).Some? && FindDirectoryByPath(targetPath, 0, children).None?
    ensures o.Interrupted? ==>
              && Some(o.sourceCid) == FindDirectoryByPath(sourcePath, 0, children)
              && Some(o.targetCid) == FindDirectoryByPath(targetPath, 0, children)
              && |o.cycles| == cycles
              && forall c :: 0 <= c < cycles ==>
                   o.cycles[c] == RunCycle(scan(c + 1, o.sourceCid), minSize, o.targetCid, c + 1, move)
  {
    match FindDirectoryByPath(sourcePath, 0, children)
    case None => SourceNotFound
    case Some(src) =>
      match FindDirectoryByPath(targetPath, 0, children)
      case None => TargetNotFound
      case Some(dst) =>
        Interrupted(src, dst, Cycles(src, dst, minSize, cycles, scan, move))
  }

  /** The cycles run before the interrupt; cycle `c` is numbered `c + 1`, as `run_count`. */
  function Cycles(src: int, dst: int, minSize: int, cycles: nat,
                  scan: (nat, int) -> Option<seq<FileInfo>>,
                  move: MoveRequest -> MoveReply): (rs: seq<CycleResult>)
    ensures |rs| == cycles
    ensures forall c :: 0 <= c < cycles ==> rs[c] == RunCycle(scan(c + 1, src), minSize, dst, c + 1, move)
  {
    seq(cycles, c requires 0 <= c < cycles => RunCycle(scan(c + 1, src), minSize, dst, c + 1, move))
  }

  /** A missing source or target directory makes the task return `False`, whatever the
      listings and the move answers would have been. */
  lemma UnresolvedPathReturnsFalse(sourcePath: string, targetPath: string, minSize: int, cycles: nat,
                                   children: int -> seq<DirEntry>,
                                   scan: (nat, int) -> Option<seq<FileInfo>>,
                                   move: MoveRequest -> MoveReply)
    requires FindDirectoryByPath(sourcePath, 0, children).None? || FindDirectoryByPath(targetPath, 0, children).None?
    ensures !Returned(AutoMoveTask(sourcePath, targetPath, minSize, cycles, children, scan, move))
  {
  }

  /** Every move the task makes goes into the resolved target directory and moves a
      file that its cycle's listing returned with at least the minimum size. */
  lemma MovesAreOfListedLargeFiles(sourcePath: string, targetPath: string, minSize: int, cycles: nat,
                                   children: int -> seq<DirEntry>,
                                   scan: (nat, int) -> Option<seq<FileInfo>>,
                                   move: MoveRequest -> MoveReply, c: nat, k: nat)
    requires AutoMoveTask(sourcePath, targetPath, minSize, cycles, children, scan, move).Interrupted?
    requires var o := AutoMoveTask(sourcePath, targetPath, minSize, cycles, children, scan, move);
             c < cycles && o.cycles[c].Scanned? && k < |o.cycles[c].report.attempts|
    ensures var o := AutoMoveTask(sourcePath, targetPath, minSize, cycles, children, scan, move);
            var files := scan(c + 1, o.sourceCid).value;
            var a := o.cycles[c].report.attempts[k];
            && a.target == o.targetCid
            && exists i :: 0 <= i < |files| && files[i].id == a.fileId && SizeOf(files[i]) >= minSize
  {
    var o := AutoMoveTask(sourcePath, targetPath, minSize, cycles, children, scan, move);
    var files := scan(c + 1, o.sourceCid).value;
    CandidatesAreKeptFiles(files, minSize);
    var ix := KeptIndices(files, minSize);
    assert ix[k] in ix;
    assert files[ix[k]].id == o.cycles[c].report.attempts[k].fileId;
  }
}
