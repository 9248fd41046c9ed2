/** The chunks of a write one after the other: what all of them together did to the file, to the
    records and to the allocation bitmap. */
module FileRuns {
  import opened Extents
  import opened Faults
  import opened FileView
  import opened FileWrites
  import opened FileRecords

  /** The look-up of each of the blocks of the file may fail. */
  ghost predicate MayMiss(blind: set<nat>, id: nat, failing: set<Failure>) {
    forall l :: l in blind ==> Finding(id, l) in failing
  }

  /** One chunk: the volume before and after it, the block it was meant for and what became of
      it. */
  datatype Turn = Turn(before: Base, after: Base, c: Chunk, p: nat, how: How)

  ghost predicate Took(w: Job, at: nat, t: Turn, ok: bool, id: nat, failing: set<Failure>) {
    && id in t.before.files && Since(t.before, t.after.files, t.after.disk, t.after.used, id, failing)
    && ChunkAt(w, at, t.c)
    && Step(ImageOf(t.before.files, t.before.disk, id), ImageOf(t.after.files, t.after.disk, id), t.c, t.p, t.how, ok)
    && (Disjoint(t.before.files[id].exts) ==> (Disjoint(t.after.files[id].exts) <==> t.how != Hidden))
    && (ok ==> t.how != Unwritten && t.how != Torn)
    && (t.how == Torn ==> t.p !in t.before.used) && (t.how == Hidden ==> Finding(id, t.c.l) in failing)
  }

  /** Chunks that all succeeded, from the start `b` of the write to `at` bytes. */
  ghost predicate Run(w: Job, b: Base, ts: seq<Turn>, at: nat, now: Base, id: nat, failing: set<Failure>) {
    if ts == [] then at == 0 && now == b
    else
      var t := ts[|ts| - 1];
      && t.after == now && |t.c.src| <= at
      && Took(w, at - |t.c.src|, t, true, id, failing)
      && Run(w, b, ts[..|ts| - 1], at - |t.c.src|, t.before, id, failing)
  }

  /** The mapped blocks that were taken for holes. */
  ghost function BlindOf(ts: seq<Turn>): set<nat> {
    if ts == [] then {} else Missed(BlindOf(ts[..|ts| - 1]), ts[|ts| - 1].c, ts[|ts| - 1].how)
  }

  lemma {:induction false} RunMore(w: Job, b: Base, ts: seq<Turn>, at: nat, t: Turn, end: nat, id: nat,
                                   failing: set<Failure>)
    requires Run(w, b, ts, at, t.before, id, failing) && Took(w, at, t, true, id, failing) && end == at + |t.c.src|
    ensures Run(w, b, ts + [t], end, t.after, id, failing) && BlindOf(ts + [t]) == Missed(BlindOf(ts), t.c, t.how)
  {
    assert (ts + [t])[..|ts|] == ts;
  }

  /** What the chunks so far did together. */
  ghost predicate Done(w: Job, b: Base, blind: set<nat>, at: nat, now: Base, id: nat, failing: set<Failure>) {
    && id in now.files && Since(b, now.files, now.disk, now.used, id, failing)
    && Writing(w, ImageOf(now.files, now.disk, id), at, blind) && MayMiss(blind, id, failing)
  }

  lemma {:induction false} RunDone(w: Job, b: Base, ts: seq<Turn>, at: nat, now: Base, id: nat, failing: set<Failure>)
    requires id in b.files && w.was == ImageOf(b.files, b.disk, id) && Run(w, b, ts, at, now, id, failing)
    ensures Done(w, b, BlindOf(ts), at, now, id, failing)
  {
    if ts == [] {
      NothingSeen(b.files, b.files, b.disk, id);
      WritingStart(w);
    } else {
      var n, t := |ts| - 1, ts[|ts| - 1];
      var m := at - |t.c.src|;
      RunDone(w, b, ts[..n], m, t.before, id, failing);
      SinceChain(b, t.before, now.files, now.disk, now.used, id, failing);
      TurnWritten(w, b, BlindOf(ts[..n]), m, t, true, id, failing);
    }
  }

  /** One chunk further in the file's view. */
  lemma TurnWritten(w: Job, b: Base, blind: set<nat>, at: nat, t: Turn, ok: bool, id: nat, failing: set<Failure>)
    requires Done(w, b, blind, at, t.before, id, failing) && Took(w, at, t, ok, id, failing)
    ensures var z := ImageOf(t.after.files, t.after.disk, id);
      && (ok ==> Writing(w, z, at + |t.c.src|, Missed(blind, t.c, t.how)))
      && (Disjoint(w.was.exts) ==> (Disjoint(z.exts) <==> Missed(blind, t.c, t.how) == {}))
      && (!ok && Tracked(w) ==>
           WriteView(w, z, at, Missed(blind, t.c, t.how), Tore(t.c, t.how))
           && Unique(t.before.files[id].exts, t.c.l))
      && MayMiss(Missed(blind, t.c, t.how), id, failing)
  {
    var y, z := ImageOf(t.before.files, t.before.disk, id), ImageOf(t.after.files, t.after.disk, id);
    Advanced(w, y, z, at, blind, t.c, t.p, t.how, ok);
  }

  /** The outcome of a write whose chunks `ts` succeeded and whose next one failed. */
  lemma RunStopped(w: Job, b: Base, ts: seq<Turn>, at: nat, t: Turn, id: nat, failing: set<Failure>)
    requires id in b.files && w.was == ImageOf(b.files, b.disk, id)
    requires Run(w, b, ts, at, t.before, id, failing) && Took(w, at, t, false, id, failing)
    ensures Since(b, t.after.files, t.after.disk, t.after.used, id, failing)
    ensures Outcome(w, b, t.after, at, Missed(BlindOf(ts), t.c, t.how), Tore(t.c, t.how), id, failing)
  {
    RunDone(w, b, ts, at, t.before, id, failing);
    SinceChain(b, t.before, t.after.files, t.after.disk, t.after.used, id, failing);
    TurnWritten(w, b, BlindOf(ts), at, t, false, id, failing);
    if Tracked(w) && t.how == Torn {
      var y, z := ImageOf(t.before.files, t.before.disk, id), ImageOf(t.after.files, t.after.disk, id);
      TornByte(y, z, t.c, t.p, t.before.disk, t.before.used);
      TornBefore(z, t.c.l, b, t.before, id, failing);
    }
  }

  /** The outcome of a write whose chunks all succeeded. */
  lemma RunEnded(w: Job, b: Base, ts: seq<Turn>, at: nat, now: Base, id: nat, failing: set<Failure>)
    requires id in b.files && w.was == ImageOf(b.files, b.disk, id)
    requires Run(w, b, ts, at, now, id, failing)
    ensures id in now.files && Since(b, now.files, now.disk, now.used, id, failing)
    ensures Outcome(w, b, now, at, BlindOf(ts), {}, id, failing)
  {
    RunDone(w, b, ts, at, now, id, failing);
    if Tracked(w) { ProgressView(w, ImageOf(now.files, now.disk, id), at, BlindOf(ts)); }
  }

  /** What a write of `w` that began at `b` and stopped after `at` bytes has done: extents overlap
      exactly if a look-up was mistaken, and while positions stay in 64 bits the view is replaced
      so far, up to the blocks of `blind` and `torn`. */
  ghost predicate Outcome(w: Job, b: Base, now: Base, at: nat, blind: set<nat>, torn: set<nat>, id: nat,
                          failing: set<Failure>)
    requires id in now.files
  {
    var z := ImageOf(now.files, now.disk, id);
    && (Disjoint(w.was.exts) ==> (Disjoint(z.exts) <==> blind == {}))
    && (Tracked(w) ==>
         WriteView(w, z, at, blind, torn) && forall m :: m in torn ==> TornReads(z, m, b.disk, b.used))
    && MayMiss(blind, id, failing)
  }
}
