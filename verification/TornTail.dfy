/** What a torn journal does to the next commit. Recovery ignores the records of a commit that was cut short, but it
    does not remove them, and the next commit appends its own behind them and replays everything. */
module TornTail {
  import opened Bytes
  import opened Sweep
  import opened Journal
  import opened Crash

  /** The most that `db_open` maps: a terabyte. */
  const MAP_SIZE := 0x100_0000_0000

  /** Whatever the next commit changes, it installs it: the replay of the whole journal, the left-over records
      followed by that commit's, gives the private image. */
  ghost predicate NextCommitInstalls(journal: seq<byte>, img: seq<byte>) {
    forall rs, priv :: Tracked(rs, priv, img) ==>
      Replay(journal + EncodeAll(WritesOf(rs, priv) + [Commit]), img) == priv
  }

  lemma CleanInstalls(journal: seq<byte>, img: seq<byte>)
    requires Clean(journal, img)
    ensures NextCommitInstalls(journal, img)
  {
    hide EncodeAll, Replay, WritesOf;
    var log := LogOf(journal, img);
    forall rs, priv | Tracked(rs, priv, img)
      ensures Replay(journal + EncodeAll(WritesOf(rs, priv) + [Commit]), img) == priv
    {
      TrackedBatch(rs, priv, img);
      WholeJournal(log, WritesOf(rs, priv));
      ReplayInstalls(log, WritesOf(rs, priv), priv, img, 0);
    }
  }

  /** A commit that changes nothing already replays the left-over records. */
  lemma InstallsIsSettled(log: seq<Entry>, img: seq<byte>)
    requires AllFit(log) && |img| < 0x8000_0000_0000_0000 && NextCommitInstalls(EncodeAll(log), img)
    ensures ApplyAll(log, img) == img
  {
    hide EncodeAll, Replay;
    var ws := WritesOf([], img);
    assert Tracked([], img, img);
    assert ws + [Commit] == [Commit] && [Commit][1..] == [];
    WholeJournal(log, ws);
    ReadWhole(log + [Commit], img);
    ApplyConcat(log, [Commit], img);
  }

  // ---- A commit that a torn record spoils ----

  function Fill(v: byte, n: nat): (f: seq<byte>)
    ensures |f| == n && forall i :: 0 <= i < n ==> f[i] == v
  {
    seq(n, _ => v)
  }

  /** The commit record. */
  const END: seq<byte> := [1, 0, 0, 0]

  /** The header of a write of n bytes at the start of the image. */
  function Front(n: nat): (f: seq<byte>)
    ensures |f| == 20 && forall i :: 0 <= i < 12 ==> f[i] == 0
  {
    Zeros(12) + ToLe(n, 8)
  }

  /** The records of a commit that fills an image of n bytes with v. */
  function Spoiler(n: nat, v: byte): (bs: seq<byte>)
    ensures |bs| == 24 + n
    ensures forall i :: 20 <= i < 20 + n ==> bs[i] == v
  {
    Front(n) + Fill(v, n) + END
  }

  lemma {:induction false} SmallBytes(v: nat, n: nat)
    requires v < 256 && n > 0
    ensures ToLe(v, n) == [v] + Zeros(n - 1)
  {
    if n > 1 { SmallBytes(0, n - 1); }
  }

  lemma SpoilerRecords(n: nat, v: byte)
    ensures EncodeAll([Write(0, Fill(v, n)), Commit]) == Spoiler(n, v)
  {
    var es := [Write(0, Fill(v, n)), Commit];
    SmallBytes(WRITE, 4);
    SmallBytes(0, 8);
    SmallBytes(COMMIT, 4);
    assert es[1..] == [Commit] && es[1..][1..] == [];
    assert EncodeAll(es) == Encode(es[0]) + (Encode(es[1]) + EncodeAll(es[1..][1..]));
    assert Zeros(12) == ([0] + Zeros(3)) + ([0] + Zeros(7));
  }

  lemma SpoilerIsCommit(n: nat, v: byte, journal: seq<byte>, img: seq<byte>)
    requires n == |img| < 0x8000_0000_0000_0000 && NextCommitInstalls(journal, img)
    ensures Replay(journal + Spoiler(n, v), img) == Fill(v, n)
  {
    hide EncodeAll, Replay, Fill, Spoiler;
    var rs, priv := [Region(0, n)], Fill(v, n);
    assert Tracked(rs, priv, img) by {
      forall x | 0 <= x < n ensures InSome(rs, x) { assert Within(rs[0], x); }
    }
    assert WritesOf(rs, priv) + [Commit] == [Write(0, priv), Commit] by { assert priv[0..n] == priv; }
    SpoilerRecords(n, v);
  }

  /** The top byte of a number. */
  lemma {:induction false} TopByte(bs: seq<byte>)
    requires |bs| > 0
    ensures Le(bs) >= bs[|bs| - 1] * Span(|bs| - 1)
    ensures bs[|bs| - 1] >= 128 ==> Le(bs) >= 128 * Span(|bs| - 1)
  {
    if |bs| > 1 {
      TopByte(bs[1..]);
      var t, x := bs[|bs| - 1], Span(|bs| - 2);
      assert t * (256 * x) == 256 * (t * x);
    }
  }

  lemma NonZero(bs: seq<byte>, i: nat)
    requires i < |bs| && bs[i] != 0
    ensures Le(bs) != 0
    decreases i
  {
    if i > 0 { NonZero(bs[1..], i - 1); }
  }

  /** Data bytes that are no record type, and the commit record behind them, are skipped. */
  lemma {:induction false} DataSkipped(bs: seq<byte>, v: byte, m: nat, img: seq<byte>)
    requires v > 0 && bs == Fill(v, m) + END
    ensures Replay(bs, img) == img
    decreases m
  {
    NonZero(bs[..4], 0);
    if m >= 4 {
      assert bs[4..] == Fill(v, m - 4) + END;
      DataSkipped(bs[4..], v, m - 4, img);
    }
  }

  /** What follows the first s bytes of the spoiler, when that begins inside its data or behind it. */
  lemma SpoilerEnd(n: nat, v: byte, s: nat, img: seq<byte>)
    requires v > 0 && 20 <= s <= 24 + n
    ensures Replay(Spoiler(n, v)[s..], img) == img
  {
    var bs := Spoiler(n, v)[s..];
    if s <= 20 + n {
      assert bs == Fill(v, n + 20 - s) + END;
      DataSkipped(bs, v, n + 20 - s, img);
    } else {
      assert |bs| < 4;
    }
  }

  /** A write that begins inside the spoiler's header has a size that no read can have. */
  lemma SpoilerWrite(n: nat, v: byte, s: nat, img: seq<byte>)
    requires v >= 128 && n >= 20 && 0 < s < 20 && Le(Spoiler(n, v)[s..][..4]) == WRITE
    ensures Replay(Spoiler(n, v)[s..], img) == img
  {
    hide Front, Fill, Le;
    var all := Spoiler(n, v);
    var bs := all[s..];
    if s > 16 { NonZero(bs[..4], 3); }
    assert bs[12..20][7] == all[s + 19] == v;
    TopByte(bs[12..20]);
    Spans();
    assert bs[20..] == all[s + 20..];
    SpoilerEnd(n, v, s + 20, img);
  }

  /** The spoiler read from inside its header: no write takes place. */
  lemma {:induction false} SpoilerMisread(n: nat, v: byte, s: nat, img: seq<byte>)
    requires v >= 128 && n >= 20 && 0 < s <= 24 + n
    ensures Replay(Spoiler(n, v)[s..], img) == img
    decreases 24 + n - s
  {
    hide Front, Fill, Le;
    var all := Spoiler(n, v);
    var bs := all[s..];
    if s >= 20 {
      SpoilerEnd(n, v, s, img);
    } else if Le(bs[..4]) == WRITE {
      SpoilerWrite(n, v, s, img);
    } else {
      assert bs[4..] == all[s + 4..];
      SpoilerMisread(n, v, s + 4, img);
    }
  }

  /** The last header byte is zero. */
  lemma FrontEnds(n: nat, v: byte)
    requires n <= MAP_SIZE
    ensures Front(n)[19] == 0 && Spoiler(n, v)[19] == 0
  {
    Spans();
    LeRoundTrip(n, 8);
    TopByte(ToLe(n, 8));
  }

  /** A torn commit record is completed by the zeros behind it. */
  lemma TornCommitRecord(k: nat, n: nat, v: byte, img: seq<byte>)
    requires 0 < k < 4 && v >= 128 && n >= 20
    ensures Replay(Encode(Commit)[..k] + Spoiler(n, v), img) == img
  {
    SmallBytes(COMMIT, 4);
    var bs := Encode(Commit)[..k] + Spoiler(n, v);
    assert bs[..4] == END && bs[4..] == Spoiler(n, v)[4 - k..];
    NonZero(bs[..4], 0);
    SpoilerMisread(n, v, 4 - k, img);
  }

  /** A stretch cut behind its first part, followed by more bytes, is that part with other data. */
  lemma Mended(h: seq<byte>, d: seq<byte>, k: nat, all: seq<byte>)
    requires |h| <= k < |h| + |d| && |h| + |d| - k <= |all|
    ensures var r := |h| + |d| - k;
      (h + d)[..k] + all == h + (d[..k - |h|] + all[..r]) + all[r..]
  {
  }

  /** A record torn behind its header takes its missing data from the next commit's records, which begin with zero. */
  lemma TornData(e: Entry, k: nat, n: nat, v: byte, img: seq<byte>)
    requires e.Write? && Fits(e) && 20 <= k < |Encode(e)| && e.ptr + |e.data| <= |img| == n
    requires v >= 128 && n >= 20
    ensures Replay(Encode(e)[..k] + Spoiler(n, v), img) != Fill(v, n)
  {
    hide Spoiler, Front, ToLe, Le, Fill;
    var all, r := Spoiler(n, v), |Encode(e)| - k;
    var data := e.data[..k - 20] + all[..r];
    assert data[k - 20] == 0 by { FrontStarts(n, v); }
    Mended(ToLe(WRITE, 4) + ToLe(e.ptr, 8) + ToLe(|e.data|, 8), e.data, k, all);
    assert Encode(e)[..k] + all == Encode(Write(e.ptr, data)) + all[r..];
    EncodedWrite(Write(e.ptr, data), all[r..]);
    SpoilerMisread(n, v, r, Overlay(img, e.ptr, data));
    assert Overlay(img, e.ptr, data)[e.ptr + k - 20] == 0;
  }

  lemma FrontStarts(n: nat, v: byte)
    ensures forall i :: 0 <= i < 12 ==> Spoiler(n, v)[i] == 0
    ensures Spoiler(n, v)[..20] == Front(n)
  {
  }

  /** The first write of a replay, by what follows its header. */
  function WriteThen(ptr: nat, size: nat, rest: seq<byte>, img: seq<byte>): seq<byte> {
    if size >= 0x8000_0000_0000_0000 then Replay(rest, img)
    else if size > |rest| then Overlay(img, ptr, rest)
    else Replay(rest[size..], Overlay(img, ptr, rest[..size]))
  }

  lemma OneWrite(bs: seq<byte>, img: seq<byte>)
    requires |bs| >= 20 && Le(bs[..4]) == WRITE
    ensures Replay(bs, img) == WriteThen(Le(bs[4..12]), Le(bs[12..20]), bs[20..], img)
  {
    var size := Le(bs[12..20]);
    if size <= |bs[20..]| {
      assert bs[20..][..size] == bs[20..20 + size] && bs[20..][size..] == bs[20 + size..];
    }
  }

  /** Whatever write the spoiler's first bytes complete, its replay does not give the image asked for. */
  lemma Completed(k: nat, ptr: nat, size: nat, n: nat, v: byte, img: seq<byte>)
    requires 0 < k < 20 && |img| == n
    requires v >= 128 && 20 <= n <= MAP_SIZE && v != img[0] && v != Front(n)[20 - k]
    ensures WriteThen(ptr, size, Spoiler(n, v)[20 - k..], img) != Fill(v, n)
  {
    hide Spoiler, Front, ToLe, Fill, Overlay, Replay;
    var rest := Spoiler(n, v)[20 - k..];
    FrontStarts(n, v);
    FrontEnds(n, v);
    assert rest[0] == Front(n)[20 - k] && rest[k - 1] == 0;
    NothingFilled(img, ptr, v);
    if size >= 0x8000_0000_0000_0000 {
      SpoilerMisread(n, v, 20 - k, img);
    } else if size > |rest| {
      NotFilled(img, ptr, rest, k - 1, v);
    } else {
      assert rest[size..] == Spoiler(n, v)[20 - k + size..];
      SpoilerMisread(n, v, 20 - k + size, Overlay(img, ptr, rest[..size]));
      if size >= k {
        NotFilled(img, ptr, rest[..size], k - 1, v);
      } else if size > 0 {
        NotFilled(img, ptr, rest[..size], 0, v);
      } else {
        assert rest[..size] == [];
      }
    }
  }

  /** A record torn inside its header is completed to some write by the next commit's first bytes. */
  lemma TornHeader(torn: seq<byte>, n: nat, v: byte, img: seq<byte>)
    requires 0 < |torn| < 20 && Le((torn + Spoiler(n, v))[..4]) == WRITE && |img| == n
    requires v >= 128 && 20 <= n <= MAP_SIZE && v != img[0] && v != Front(n)[20 - |torn|]
    ensures Replay(torn + Spoiler(n, v), img) != Fill(v, n)
  {
    hide Spoiler, Front, Fill, Replay, WriteThen, Le;
    var bs := torn + Spoiler(n, v);
    OneWrite(bs, img);
    assert bs[20..] == Spoiler(n, v)[20 - |torn|..];
    Completed(|torn|, Le(bs[4..12]), Le(bs[12..20]), n, v, img);
  }

  lemma TornType(e: Entry, k: nat, n: nat, v: byte)
    requires e.Write? && 0 < k < 20
    ensures Le((Encode(e)[..k] + Spoiler(n, v))[..4]) == WRITE
  {
    SmallBytes(WRITE, 4);
    ZeroNumber((Encode(e)[..k] + Spoiler(n, v))[..4]);
  }

  /** An overlay with a byte other than v at i, of an image that starts with one, is not all v. */
  lemma NotFilled(img: seq<byte>, ptr: nat, data: seq<byte>, i: nat, v: byte)
    requires 0 <= i < |data| && i < |img| && data[i] != v && img[0] != v
    ensures Overlay(img, ptr, data) != Fill(v, |img|)
  {
    assert Overlay(img, ptr, data)[if ptr == 0 then i else 0] != v;
  }

  lemma NothingFilled(img: seq<byte>, ptr: nat, v: byte)
    requires |img| > 0 && img[0] != v
    ensures img != Fill(v, |img|) && Overlay(img, ptr, []) != Fill(v, |img|)
  {
    assert Overlay(img, ptr, [])[0] == img[0];
  }

  function NotOf(a: byte, b: byte): (v: byte)
    ensures v >= 128 && v != a && v != b
  {
    if 255 != a && 255 != b then 255 else if 254 != a && 254 != b then 254 else 253
  }

  /** A torn record and the spoiler behind it never give the image that the spoiler asks for. */
  lemma TornSpoils(e: Entry, k: nat, n: nat, v: byte, img: seq<byte>)
    requires Fits(e) && 0 < k < |Encode(e)| && |img| == n && (e.Write? ==> e.ptr + |e.data| <= n)
    requires 20 <= n <= MAP_SIZE && v >= 128 && v != img[0] && (k < 20 ==> v != Front(n)[20 - k])
    ensures Replay(Encode(e)[..k] + Spoiler(n, v), img) != Fill(v, n)
  {
    hide Spoiler, Front, Replay;
    if e.Commit? {
      TornCommitRecord(k, n, v, img);
      assert img[0] != v == Fill(v, n)[0];
    } else if k >= 20 {
      TornData(e, k, n, v, img);
    } else {
      TornType(e, k, n, v);
      TornHeader(Encode(e)[..k], n, v, img);
    }
  }

  /** Behind a record that was torn anywhere, some commit is not installed. */
  lemma TornNeverInstalls(log: seq<Entry>, e: Entry, k: nat, img: seq<byte>)
    requires AllFit(log) && Fits(e) && AllInside([e], |img|) && 20 <= |img| <= MAP_SIZE && 0 < k < |Encode(e)|
    ensures !NextCommitInstalls(EncodeAll(log) + Encode(e)[..k], img)
  {
    hide Spoiler, Front, Fill, Replay, EncodeAll, Encode, NextCommitInstalls;
    var n, now, torn := |img|, ApplyAll(log, img), Encode(e)[..k];
    var v := NotOf(now[0], if k < 20 then Front(n)[20 - k] else 0);
    assert [e][0] == e;
    TornSpoils(e, k, n, v, now);
    if NextCommitInstalls(EncodeAll(log) + torn, img) {
      SpoilerIsCommit(n, v, EncodeAll(log) + torn, img);
      assert EncodeAll(log) + torn + Spoiler(n, v) == EncodeAll(log) + (torn + Spoiler(n, v));
      ReadEntries(log, torn + Spoiler(n, v), 0, img);
    }
  }

  /** Behind left-over records every next commit is installed if and only if they are whole and the image already
      has them. Both can be read off the journal before that commit. */
  lemma NextCommitExactly(log: seq<Entry>, e: Entry, k: nat, img: seq<byte>)
    requires AllFit(log + [e]) && AllInside(log + [e], |img|) && 20 <= |img| <= MAP_SIZE && k < |Encode(e)|
    ensures NextCommitInstalls(EncodeAll(log) + Encode(e)[..k], img) <==> k == 0 && ApplyAll(log, img) == img
  {
    hide EncodeAll, Encode;
    assert (log + [e])[|log|] == e && (log + [e])[..|log|] == log;
    if k == 0 {
      assert EncodeAll(log) + Encode(e)[..0] == EncodeAll(log);
      if ApplyAll(log, img) == img {
        assert Settled(log, img);
        CleanInstalls(EncodeAll(log), img);
      } else if NextCommitInstalls(EncodeAll(log), img) {
        InstallsIsSettled(log, img);
      }
    } else {
      TornNeverInstalls(log, e, k, img);
    }
  }

  /** A batch cut anywhere is some whole records and a piece of the next one. */
  lemma {:induction false} CutBatch(es: seq<Entry>, n: nat) returns (i: nat, k: nat)
    requires n < |EncodeAll(es)|
    ensures i < |es| && k < |Encode(es[i])|
    ensures EncodeAll(es)[..n] == EncodeAll(es[..i]) + Encode(es[i])[..k]
  {
    hide Encode;
    var first := |Encode(es[0])|;
    if n < first {
      i, k := 0, n;
      assert es[..0] == [];
      assert EncodeAll(es)[..n] == Encode(es[0])[..n];
    } else {
      i, k := CutBatch(es[1..], n - first);
      assert es[1..][..i] == es[..i + 1][1..];
      assert EncodeAll(es)[..n] == Encode(es[0]) + EncodeAll(es[1..])[..n - first];
      i := i + 1;
    }
  }

  /** After a commit that was cut inside its journal records: the next one is installed, whatever it changes, if and
      only if the journal is clean. */
  lemma AfterTornCommit(log: seq<Entry>, rs: seq<Region>, priv: seq<byte>, img: seq<byte>, n: nat)
    requires Settled(log, img) && Tracked(rs, priv, img) && 20 <= |img| <= MAP_SIZE
    requires n < |EncodeAll(WritesOf(rs, priv) + [Commit])|
    ensures var journal := CommitUpTo(log, WritesOf(rs, priv), img, InJournal(n)).journal;
      NextCommitInstalls(journal, img) <==> Clean(journal, img)
  {
    hide EncodeAll, Encode, WritesOf;
    TrackedBatch(rs, priv, img);
    var es := WritesOf(rs, priv) + [Commit];
    var i, k := CutBatch(es, n);
    EncodeAllConcat(log, es[..i]);
    assert EncodeAll(log) + EncodeAll(es)[..n] == EncodeAll(log + es[..i]) + Encode(es[i])[..k];
    CutJournal(log + es[..i], es[i], k, img);
  }

  lemma CutJournal(log: seq<Entry>, e: Entry, k: nat, img: seq<byte>)
    requires AllFit(log + [e]) && AllInside(log + [e], |img|) && 20 <= |img| <= MAP_SIZE && k < |Encode(e)|
    ensures var journal := EncodeAll(log) + Encode(e)[..k];
      NextCommitInstalls(journal, img) <==> Clean(journal, img)
  {
    hide EncodeAll, Encode, NextCommitInstalls, ApplyAll;
    var journal := EncodeAll(log) + Encode(e)[..k];
    NextCommitExactly(log, e, k, img);
    if NextCommitInstalls(journal, img) {
      assert journal == EncodeAll(log);
      assert (log + [e])[..|log|] == log;
      assert Settled(log, img);
    }
    if Clean(journal, img) { CleanInstalls(journal, img); }
  }
}
