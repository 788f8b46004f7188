/** Crash atomicity. Journal and image writes take effect in program order and
    may stop after any byte; the next open checks the journal and replays it. */
module Crash {
  import opened Bytes
  import opened Sweep
  import opened Journal

  datatype Disk = Disk(journal: seq<byte>, image: seq<byte>)

  /** Where a commit stops: after n bytes of its journal records, after m bytes of the
      replay, or at its end, with the journal truncated or (if the sync failed) kept. */
  datatype Cut = InJournal(n: nat) | InImage(m: nat) | AtEnd(truncated: bool)

  /** What `db_open` makes of a disk. */
  function Recover(d: Disk): Disk {
    if Check(d.journal, 0) == 1 then d.(image := Replay(d.journal, d.image)) else d
  }

  /** The disk a commit of the writes ws leaves when it stops at cut. It started from
      image img and a journal holding log. */
  function CommitUpTo(log: seq<Entry>, ws: seq<Entry>, img: seq<byte>, cut: Cut): Disk {
    var batch := EncodeAll(ws + [Commit]);
    match cut
    case InJournal(n) => Disk(EncodeAll(log) + batch[..if n < |batch| then n else |batch|], img)
    case InImage(m) => Disk(EncodeAll(log) + batch, PartialReplay(log + (ws + [Commit]), m, img))
    case AtEnd(truncated) =>
      Disk(if truncated then [] else EncodeAll(log) + batch, Replay(EncodeAll(log) + batch, img))
  }

  /** The batch has its commit record on disk. */
  predicate Committed(ws: seq<Entry>, cut: Cut) {
    cut.InJournal? ==> cut.n >= |EncodeAll(ws + [Commit])|
  }

  /** The regions lie inside the image and hold every byte where the two images differ. */
  ghost predicate Tracked(rs: seq<Region>, priv: seq<byte>, img: seq<byte>) {
    && |img| == |priv| < 0x8000_0000_0000_0000
    && (forall i :: 0 <= i < |rs| ==> rs[i].lo <= rs[i].hi <= |priv|)
    && (forall x :: 0 <= x < |img| && img[x] != priv[x] ==> InSome(rs, x))
  }

  lemma WholeJournal(log: seq<Entry>, ws: seq<Entry>)
    ensures EncodeAll(log) + EncodeAll(ws + [Commit]) == EncodeAll(log + (ws + [Commit]))
  {
    EncodeAllConcat(log, ws + [Commit]);
  }

  /** The writes of one commit, whose replay turns img into priv. */
  ghost predicate Batch(ws: seq<Entry>, priv: seq<byte>, img: seq<byte>) {
    && AllFit(ws)
    && AllInside(ws, |priv|)
    && (forall i :: 0 <= i < |ws| ==> ws[i].Write?)
    && |img| == |priv|
    && ApplyAll(ws + [Commit], img) == priv
  }

  lemma TrackedBatch(rs: seq<Region>, priv: seq<byte>, img: seq<byte>)
    requires Tracked(rs, priv, img)
    ensures Batch(WritesOf(rs, priv), priv, img)
  {
    WritesInstall(rs, priv, img);
  }

  /** The writes of a commit, with one more region swept. */
  lemma OneMoreWrite(out: seq<Region>, r: Region, priv: seq<byte>)
    requires Inside(out, |priv|) && Inside(out + [r], |priv|) && r.lo <= r.hi <= |priv|
    ensures EncodeAll(WritesOf(out + [r], priv)) ==
      EncodeAll(WritesOf(out, priv)) + Encode(Write(r.lo, priv[r.lo..r.hi]))
  {
    var e := Write(r.lo, priv[r.lo..r.hi]);
    assert WritesOf(out + [r], priv) == WritesOf(out, priv) + [e];
    EncodeAllConcat(WritesOf(out, priv), [e]);
    assert [e][1..] == [];
    assert EncodeAll([e]) == Encode(e) + [];
  }

  /** The records of some regions begin with those of the first ones. */
  lemma FewerWrites(out: seq<Region>, all: seq<Region>, priv: seq<byte>)
    requires out <= all && Inside(all, |priv|)
    ensures EncodeAll(WritesOf(out, priv)) <= EncodeAll(WritesOf(all, priv))
  {
    var ws := WritesOf(all, priv);
    assert ws[..|out|] == WritesOf(out, priv) && ws[..|out|] + ws[|out|..] == ws;
    EncodeAllConcat(ws[..|out|], ws[|out|..]);
  }

  lemma CommitJournal(log: seq<Entry>, ws: seq<Entry>)
    ensures EncodeAll(log) + EncodeAll(ws) + ToLe(COMMIT, 4) == EncodeAll(log) + EncodeAll(ws + [Commit])
    ensures EncodeAll(log) + EncodeAll(ws + [Commit]) == EncodeAll(log + (ws + [Commit]))
  {
    hide ToLe;
    EncodeAllConcat(ws, [Commit]);
    assert [Commit][1..] == [];
    assert EncodeAll([Commit]) == Encode(Commit) + EncodeAll([]);
    WholeJournal(log, ws);
  }

  lemma LongerBatch(ws: seq<Entry>)
    ensures EncodeAll(ws) < EncodeAll(ws + [Commit])
  {
    EncodeAllConcat(ws, [Commit]);
  }

  lemma NoWrites(priv: seq<byte>)
    ensures EncodeAll(WritesOf([], priv)) == []
  {
  }

  lemma NothingLogged(img: seq<byte>)
    ensures Settled([], img) && EncodeAll([]) == []
  {
  }

  /** A whole journal is recognised, and replayed it does what its entries say. */
  lemma ReadWhole(es: seq<Entry>, img: seq<byte>)
    requires AllFit(es)
    ensures Check(EncodeAll(es), 0) == Verdict(es, 0)
    ensures Replay(EncodeAll(es), img) == ApplyAll(es, img)
  {
    assert EncodeAll(es) + [] == EncodeAll(es);
    ReadEntries(es, [], 0, img);
  }

  lemma CommittedFits(log: seq<Entry>, ws: seq<Entry>)
    requires AllFit(log) && AllFit(ws)
    ensures AllFit(log + (ws + [Commit]))
    ensures Verdict(log + (ws + [Commit]), 0) == 1
  {
    var es := log + (ws + [Commit]);
    assert es[|es| - 1] == Commit;
    VerdictOfCommitted(es, 0);
  }

  /** Replaying a settled log and then a commit's writes installs the private image,
      wherever an earlier replay of the same journal had stopped. */
  lemma ReplayInstalls(log: seq<Entry>, ws: seq<Entry>, priv: seq<byte>, img: seq<byte>, m: nat)
    requires Settled(log, img) && Batch(ws, priv, img)
    ensures var es := log + (ws + [Commit]);
      && Check(EncodeAll(es), 0) == 1
      && Replay(EncodeAll(es), img) == priv
      && Replay(EncodeAll(es), priv) == priv
      && Replay(EncodeAll(es), PartialReplay(es, m, img)) == priv
      && ApplyAll(es, priv) == priv
  {
    var es := log + (ws + [Commit]);
    CommittedFits(log, ws);
    ApplyConcat(log, ws + [Commit], img);
    ReplayFinishes(es, m, img);
    ReadWhole(es, img);
    ReadWhole(es, priv);
    ReadWhole(es, PartialReplay(es, m, img));
  }

  lemma TornIsOld(log: seq<Entry>, ws: seq<Entry>, priv: seq<byte>, img: seq<byte>, n: nat)
    requires Settled(log, img) && Batch(ws, priv, img) && n < |EncodeAll(ws + [Commit])|
    ensures Recover(Disk(EncodeAll(log) + EncodeAll(ws + [Commit])[..n], img)).image == img
  {
    var tail := EncodeAll(ws + [Commit])[..n];
    ReadEntries(log, tail, 0, img);
    if n > 0 { TornBatch(ws, n, Verdict(log, 0)); }
  }

  lemma CrashAtomicBatch(log: seq<Entry>, ws: seq<Entry>, priv: seq<byte>, img: seq<byte>, cut: Cut)
    requires Settled(log, img) && Batch(ws, priv, img)
    ensures Recover(CommitUpTo(log, ws, img, cut)).image == if Committed(ws, cut) then priv else img
  {
    var batch := EncodeAll(ws + [Commit]);
    WholeJournal(log, ws);
    ReplayInstalls(log, ws, priv, img, if cut.InImage? then cut.m else 0);
    if !Committed(ws, cut) {
      TornIsOld(log, ws, priv, img, cut.n);
    } else {
      assert batch[..|batch|] == batch;
    }
  }

  /** Main theorem: recovery yields exactly the old image when the commit stopped before its
      commit record was whole, and exactly the new one in every other case. */
  lemma CrashAtomic(log: seq<Entry>, rs: seq<Region>, priv: seq<byte>, img: seq<byte>, cut: Cut)
    requires Settled(log, img) && Tracked(rs, priv, img)
    ensures Recover(CommitUpTo(log, WritesOf(rs, priv), img, cut)).image ==
      if Committed(WritesOf(rs, priv), cut) then priv else img
  {
    TrackedBatch(rs, priv, img);
    CrashAtomicBatch(log, WritesOf(rs, priv), priv, img, cut);
  }

  /** The image after recoveries of one journal that were each cut after some number of bytes. */
  function Interrupted(es: seq<Entry>, cuts: seq<nat>, img: seq<byte>): seq<byte> {
    if |cuts| == 0 then img else Interrupted(es, cuts[1..], PartialReplay(es, cuts[0], img))
  }

  /** However often recovery itself is cut short, the recovery that finishes gives what
      the first one would have given. */
  lemma {:induction false} RecoveryMayCrash(es: seq<Entry>, cuts: seq<nat>, img: seq<byte>)
    requires AllFit(es) && |es| > 0 && es[|es| - 1] == Commit
    ensures Recover(Disk(EncodeAll(es), Interrupted(es, cuts, img))) == Recover(Disk(EncodeAll(es), img))
  {
    if |cuts| > 0 {
      RecoveryMayCrash(es, cuts[1..], PartialReplay(es, cuts[0], img));
      ReplayFinishes(es, cuts[0], img);
      ReadWhole(es, img);
      ReadWhole(es, PartialReplay(es, cuts[0], img));
      VerdictOfCommitted(es, 0);
    }
  }

  /** A journal that was kept or recovered is settled again, so the next commit starts from one. */
  lemma SettledAgain(log: seq<Entry>, ws: seq<Entry>, priv: seq<byte>, img: seq<byte>)
    requires Settled(log, img) && Batch(ws, priv, img)
    ensures Settled(log + (ws + [Commit]), priv)
  {
    ReplayInstalls(log, ws, priv, img, 0);
    CommittedFits(log, ws);
    InsideConcat(log, ws + [Commit], |priv|);
  }

  lemma InsideConcat(a: seq<Entry>, b: seq<Entry>, n: nat)
    requires AllInside(a, n) && AllInside(b, n)
    ensures AllInside(a + b, n)
  {
  }

  /** The journal consists of whole records that the image already has. */
  ghost predicate Clean(journal: seq<byte>, img: seq<byte>) {
    exists log :: journal == EncodeAll(log) && Settled(log, img)
  }

  ghost function LogOf(journal: seq<byte>, img: seq<byte>): (log: seq<Entry>)
    requires Clean(journal, img)
    ensures journal == EncodeAll(log) && Settled(log, img)
  {
    var log :| journal == EncodeAll(log) && Settled(log, img); log
  }

  /** Recovery leaves an image alone that already has the journal. */
  lemma SettledDisk(log: seq<Entry>, img: seq<byte>)
    requires Settled(log, img)
    ensures Recover(Disk(EncodeAll(log), img)).image == img
  {
    ReadWhole(log, img);
  }

  /** After a commit whose record was whole, kept or truncated, the journal is clean over the new image. */
  lemma CleanAfter(log: seq<Entry>, ws: seq<Entry>, priv: seq<byte>, img: seq<byte>, cut: Cut)
    requires Settled(log, img) && Batch(ws, priv, img) && Committed(ws, cut)
    ensures Clean(CommitUpTo(log, ws, img, cut).journal, priv)
  {
    hide EncodeAll, Settled, Replay, PartialReplay;
    var batch := EncodeAll(ws + [Commit]);
    assert batch[..|batch|] == batch;
    WholeJournal(log, ws);
    SettledAgain(log, ws, priv, img);
    NothingLogged(priv);
  }

  /** After recovery a committed journal is clean, whatever the image was. */
  lemma CleanByRecovery(log: seq<Entry>, img: seq<byte>)
    requires AllFit(log) && AllInside(log, |img|) && log != [] && log[|log| - 1] == Commit
    ensures Clean(EncodeAll(log), Recover(Disk(EncodeAll(log), img)).image)
  {
    ReadWhole(log, img);
    ReplayFinishes(log, 0, img);
    VerdictOfCommitted(log, 0);
    assert Settled(log, Recover(Disk(EncodeAll(log), img)).image);
  }
}
