/** The buffered writer of the current INCR file: feedAppendOnlyFile(), aofWrite() and
    flushAppendOnlyFile(). What the operating system answers is a parameter of each call. */
module AofWriter {
  import opened CString
  import opened AofText
  import opened AofLoad
  import opened AofFeed

  datatype FsyncPolicy = FsyncNo | FsyncEverysec | FsyncAlways

  /** One answer of write(2); the count is capped by what is left to write. */
  datatype WriteAnswer = Wrote(n: nat) | Interrupted | WriteError

  /** What one flush finds outside the writer. */
  datatype Environment = Environment(
    policy: FsyncPolicy,
    mstime: int,
    fsyncInProgress: bool,
    fsyncHeldBack: bool,          // no-appendfsync-on-rewrite with an active child
    writes: seq<WriteAnswer>,     // an exhausted sequence answers with an error
    truncateWorks: bool,
    fsyncWorks: bool)

  /** The bytes write(2) takes before it first fails, if it is given as many; interrupted calls take none. */
  function Accepted(writes: seq<WriteAnswer>): nat {
    if writes == [] || writes[0].WriteError? then 0
    else (if writes[0].Wrote? then writes[0].n else 0) + Accepted(writes[1..])
  }

  /** A flush waits for a running fsync, though not longer than two seconds. */
  predicate Postpones(env: Environment, force: bool, postponedStart: int) {
    && env.policy.FsyncEverysec? && !force && env.fsyncInProgress
    && (postponedStart == 0 || env.mstime - postponedStart < 2000)
  }

  /** An fsync is due: under always with every flush, under everysec after a second. */
  predicate FsyncDue(env: Environment, lastFsync: int) {
    !env.fsyncHeldBack && (env.policy.FsyncAlways? || (env.policy.FsyncEverysec? && env.mstime - lastFsync >= 1000))
  }

  /** What writing the buffer leaves in the file and in the buffer: all, or after a failure what was written, unless
      it could be cut off again. */
  ghost predicate WritesOut(env: Environment, file0: string, buf0: string, file: string, buf: string, exited: bool,
                            failing: bool) {
    var a := Accepted(env.writes);
    if a >= |buf0| then file == file0 + buf0 && buf == "" && (!exited ==> !failing)
    else
      var k := if env.truncateWorks then 0 else a;
      && file == file0 + buf0[..k] && exited == env.policy.FsyncAlways?
      && (!exited ==> failing && buf == buf0[k..])
  }

  function SelectedAfter(selected: int, feeds: seq<Feed>): int {
    if feeds == [] then selected
    else Selected(SelectedAfter(selected, feeds[..|feeds| - 1]), feeds[|feeds| - 1])
  }

  lemma {:induction false} SelectedAfterFirst(selected: int, feeds: seq<Feed>)
    requires feeds != []
    ensures SelectedAfter(selected, feeds) == SelectedAfter(Selected(selected, feeds[0]), feeds[1..])
    decreases |feeds|
  {
    var n := |feeds| - 1;
    if n > 0 {
      SelectedAfterFirst(selected, feeds[..n]);
      assert feeds[..n][1..] == feeds[1..][..n - 1];
    } else {
      assert feeds[..0] == [] && feeds[1..] == [];
    }
  }

  lemma SelectedAppend(feeds: seq<Feed>, f: Feed)
    ensures SelectedAfter(-1, feeds + [f]) == Selected(SelectedAfter(-1, feeds), f)
  {
    assert (feeds + [f])[..|feeds|] == feeds;
  }

  lemma {:induction false} FeedAllAppend(selected: int, feeds: seq<Feed>, f: Feed)
    requires DatabasesKnown(feeds) && f.db >= -1
    ensures FeedAll(selected, feeds + [f]) == FeedAll(selected, feeds) + FeedText(SelectedAfter(selected, feeds), f)
    decreases |feeds|
  {
    hide FeedText;
    var all := feeds + [f];
    if feeds == [] {
      assert all == [f] && all[1..] == [];
    } else {
      assert all[1..] == feeds[1..] + [f];
      FeedAllAppend(Selected(selected, feeds[0]), feeds[1..], f);
      SelectedAfterFirst(selected, feeds);
    }
  }

  lemma WroteAll(env: Environment, file0: string, buf0: string)
    requires Accepted(env.writes) >= |buf0|
    ensures WritesOut(env, file0, buf0, file0 + buf0, "", true, false)
    ensures WritesOut(env, file0, buf0, file0 + buf0, "", false, false)
  {
  }

  lemma WroteSome(env: Environment, file0: string, buf0: string, file: string, n: int, failing: bool)
    requires Accepted(env.writes) < |buf0|
    requires n == if Accepted(env.writes) > 0 && !env.truncateWorks then Accepted(env.writes) else -1
    requires file == file0 + if n == -1 then "" else buf0[..n]
    ensures env.policy.FsyncAlways? ==> WritesOut(env, file0, buf0, file, buf0, true, failing)
    ensures !env.policy.FsyncAlways? ==>
              WritesOut(env, file0, buf0, file, if n == -1 then buf0 else buf0[n..], false, true)
  {
    hide Accepted;
    assert buf0[..0] == "" && buf0[0..] == buf0;
  }

  class Writer {
    var file: string              // the INCR file on disk
    var buf: string               // aof_buf
    var selectedDb: int           // aof_selected_db
    var lastIncrSize: nat         // aof_last_incr_size
    var fsyncOffset: nat          // aof_last_incr_fsync_offset
    var lastFsync: int            // aof_last_fsync
    var postponedStart: int       // aof_flush_postponed_start
    var writeFailing: bool        // aof_last_write_status == C_ERR
    ghost var feeds: seq<Feed>    // everything fed to this file

    ghost function Fed(): string
      requires DatabasesKnown(feeds)
      reads this
    {
      FeedAll(-1, feeds)
    }

    /** No byte is lost, duplicated or reordered between the commands, the buffer and the file. */
    ghost predicate Valid()
      reads this
    {
      && DatabasesKnown(feeds)
      && file + buf == Fed()
      && selectedDb == SelectedAfter(-1, feeds)
      && lastIncrSize == |file|
      && fsyncOffset <= lastIncrSize
    }

    /** A file just created by openNewIncrAofForAppend(), with no SELECT written yet. */
    constructor ()
      ensures Valid() && file == "" && buf == "" && feeds == []
    {
      file, buf, selectedDb := "", "", -1;
      lastIncrSize, fsyncOffset, lastFsync, postponedStart := 0, 0, 0, 0;
      writeFailing := false;
      feeds := [];
    }

    /** feedAppendOnlyFile() */
    method Feed(f: Feed)
      requires Valid() && f.db >= -1
      modifies this`buf, this`selectedDb, this`feeds
      ensures Valid()
      ensures feeds == old(feeds) + [f]
      ensures buf == old(buf) + FeedText(old(selectedDb), f)
    {
      hide Print, SelectText;
      var text := "";
      if f.db != -1 && f.db != selectedDb {
        text := SelectText(f.db);
        selectedDb := f.db;
      }
      text := text + Print(f.cmd);
      FeedAllAppend(-1, feeds, f);
      SelectedAppend(feeds, f);
      hide FeedAll, SelectedAfter;
      assert file + (buf + text) == file + buf + text;
      feeds := feeds + [f];
      buf := buf + text;
    }

    /** aofWrite(): retries short and interrupted writes; -1 only if nothing was written. */
    method Write(writes: seq<WriteAnswer>) returns (n: int)
      modifies this`file
      ensures -1 <= n <= |buf|
      ensures file == old(file) + (if n == -1 then "" else buf[..n])
      ensures n == if Accepted(writes) >= |buf| then |buf| else if Accepted(writes) > 0 then Accepted(writes) else -1
    {
      var total, i := 0, 0;
      assert writes[0..] == writes;
      while total < |buf|
        invariant 0 <= total <= |buf| && i <= |writes|
        invariant file == old(file) + buf[..total]
        invariant if total < |buf| then Accepted(writes) == total + Accepted(writes[i..]) else Accepted(writes) >= |buf|
        decreases |writes| - i, 0
      {
        assert i < |writes| ==> writes[i..][1..] == writes[i + 1..];
        if i == |writes| || writes[i].WriteError? {
          return if total > 0 then total else -1;
        }
        if writes[i].Wrote? {
          var k := if writes[i].n < |buf| - total then writes[i].n else |buf| - total;
          file := file + buf[total..total + k];
          assert buf[..total] + buf[total..total + k] == buf[..total + k];
          total := total + k;
        }
        i := i + 1;
      }
      return total;
    }

    /** The fsync at the end of a flush. */
    method TryFsync(env: Environment) returns (exited: bool)
      requires fsyncOffset <= lastIncrSize
      modifies this`fsyncOffset, this`lastFsync
      ensures exited <==> FsyncDue(env, old(lastFsync)) && env.policy.FsyncAlways? && !env.fsyncWorks
      ensures lastFsync == if FsyncDue(env, old(lastFsync)) && !exited then env.mstime else old(lastFsync)
      ensures fsyncOffset == if FsyncDue(env, old(lastFsync)) && !exited
                                && (env.policy.FsyncAlways? || !env.fsyncInProgress)
                             then lastIncrSize else old(fsyncOffset)
    {
      exited := false;
      if env.fsyncHeldBack {
        return;
      }
      if env.policy.FsyncAlways? {
        if !env.fsyncWorks {
          return true;
        }
        fsyncOffset := lastIncrSize;
        lastFsync := env.mstime;
      } else if env.policy.FsyncEverysec? && env.mstime - lastFsync >= 1000 {
        if !env.fsyncInProgress {
          fsyncOffset := lastIncrSize;
        }
        lastFsync := env.mstime;
      }
    }

    /** The part of a flush that writes, from the write itself to the fsync. */
    method WriteOut(env: Environment) returns (exited: bool)
      requires Valid() && buf != ""
      modifies this`file, this`buf, this`lastIncrSize, this`fsyncOffset, this`lastFsync, this`postponedStart,
               this`writeFailing
      ensures old(file) <= file <= Fed()
      ensures !exited ==> Valid()
      ensures !exited ==> old(fsyncOffset) <= fsyncOffset
      ensures exited ==> env.policy.FsyncAlways?
      ensures !exited && !writeFailing ==> buf == "" && file == Fed()
      ensures WritesOut(env, old(file), old(buf), file, buf, exited, writeFailing)
      ensures Accepted(env.writes) >= |old(buf)| && FsyncDue(env, old(lastFsync)) && !exited ==>
                lastFsync == env.mstime && (env.policy.FsyncAlways? || !env.fsyncInProgress ==> fsyncOffset == |file|)
    {
      hide FeedAll, SelectedAfter, DatabasesKnown, Accepted, WritesOut;
      ghost var fed, file0, buf0 := Fed(), file, buf;
      var n := Write(env.writes);
      postponedStart := 0;
      if n != |buf| {
        exited := WriteFailed(n, env, file0);
        return;
      }
      assert file == fed == file0 + buf0 by { assert buf[..n] == buf; }
      WroteAll(env, file0, buf0);
      writeFailing := false;
      lastIncrSize := lastIncrSize + n;
      buf := "";
      assert file + buf == fed;
      exited := TryFsync(env);
    }

    /** A short write: what was written is cut off again if that works, and kept if not. */
    method WriteFailed(written: int, env: Environment, ghost file0: string) returns (exited: bool)
      requires Accepted(env.writes) < |buf|
      requires written == if Accepted(env.writes) > 0 then Accepted(env.writes) else -1
      requires file == file0 + if written == -1 then "" else buf[..written]
      requires DatabasesKnown(feeds) && file0 + buf == Fed() && lastIncrSize == |file0| && fsyncOffset <= lastIncrSize
      requires selectedDb == SelectedAfter(-1, feeds)
      modifies this`file, this`buf, this`lastIncrSize, this`writeFailing
      ensures file0 <= file <= Fed()
      ensures exited == env.policy.FsyncAlways? && (!exited ==> Valid() && writeFailing)
      ensures WritesOut(env, file0, old(buf), file, buf, exited, writeFailing)
    {
      hide FeedAll, SelectedAfter, DatabasesKnown, Accepted, WritesOut;
      ghost var fed, buf0 := Fed(), buf;
      var n := written;
      if n != -1 && env.truncateWorks {
        file := file[..lastIncrSize];
        n := -1;
      }
      assert file == file0 + (if n == -1 then "" else buf[..n]);
      assert fed == file + (if n == -1 then buf else buf[n..]);
      WroteSome(env, file0, buf0, file, n, writeFailing);
      if env.policy.FsyncAlways? {
        return true;
      }
      writeFailing := true;
      if n > 0 {
        lastIncrSize := lastIncrSize + n;
        buf := buf[n..];
      }
      assert buf == if n == -1 then buf0 else buf0[n..];
      return false;
    }

    /** flushAppendOnlyFile(). The process exits when a write or an fsync fails under `always`; otherwise
        the writer stays valid whatever the operating system answered, and bytes on disk stay there. */
    method Flush(force: bool, env: Environment) returns (exited: bool)
      requires Valid()
      modifies this`file, this`buf, this`lastIncrSize, this`fsyncOffset, this`lastFsync, this`postponedStart,
               this`writeFailing
      ensures old(file) <= file <= Fed()
      ensures !exited ==> Valid()
      ensures !exited ==> old(fsyncOffset) <= fsyncOffset
      ensures exited ==> env.policy.FsyncAlways?
      ensures force && !exited && !writeFailing && old(buf) != "" ==> buf == "" && file == Fed()
      ensures old(buf) == "" || Postpones(env, force, old(postponedStart)) ==> file == old(file) && buf == old(buf)
      ensures old(buf) != "" && Postpones(env, force, old(postponedStart)) ==>
                !exited && postponedStart == if old(postponedStart) == 0 then env.mstime else old(postponedStart)
      ensures old(buf) != "" && !Postpones(env, force, old(postponedStart)) ==>
                WritesOut(env, old(file), old(buf), file, buf, exited, writeFailing)
      ensures env.policy.FsyncAlways? && !env.fsyncHeldBack && !exited && !writeFailing ==> fsyncOffset == |file|
    {
      hide FeedAll, SelectedAfter, DatabasesKnown;
      exited := false;
      if buf == "" {
        if fsyncOffset != lastIncrSize {
          if env.policy.FsyncEverysec? && env.mstime - lastFsync >= 1000 && !env.fsyncInProgress {
            exited := TryFsync(env);
          } else if env.policy.FsyncAlways? {
            exited := TryFsync(env);
          }
        }
        return;
      }
      if env.policy.FsyncEverysec? && !force && env.fsyncInProgress {
        if postponedStart == 0 {
          postponedStart := env.mstime;
          return;
        } else if env.mstime - postponedStart < 2000 {
          return;
        }
      }
      exited := WriteOut(env);
    }
  }

  /** Whatever a crash leaves of the file, loading it reports no format error and executes exactly the feeds
      that reached the disk whole, with their transactions, each in the database it was fed for. */
  lemma CrashRecovers(kind: Table, feeds: seq<Feed>, file: string)
    requires SelectsKnown(kind) && ValidFeeds(kind, feeds) && file <= FeedAll(-1, feeds)
    ensures !Load(kind, file).Failed?
    ensures TraceOf(Load(kind, file)) == AtCut(kind, Expand(-1, feeds), |file|).trace
    ensures SameTrace(TraceOf(Load(kind, file)),
                      ExecAll(kind, Executed(false, [], []), feeds[..WholeFeeds(-1, feeds, |file|)]).done)
  {
    hide Load, SameTrace, Expand, WholeFeeds, ExecAll, CutRun, AtCut, TraceOf, Loadable, FeedAll, Log;
    FeedIsLog(-1, feeds);
    ExpandLoadable(kind, -1, feeds);
    PrefixTrace(kind, Expand(-1, feeds), |file|);
    CutIsAtCut(kind, Expand(-1, feeds), |file|);
    assert file == FeedAll(-1, feeds)[..|file|];
    StartsInStep(kind);
    CutInStep(kind, FRESH, Executed(false, [], []), -1, feeds, |file|);
  }

  lemma CutIsAtCut(kind: Table, cs: seq<Command>, k: nat)
    ensures CutRun(kind, FRESH, cs, k) == AtCut(kind, cs, k)
  {
  }

  lemma StartsInStep(kind: Table)
    ensures InStep(kind, FRESH, Executed(false, [], []), -1)
  {
  }
}
