/** The redo journal: its byte format, what checking and replaying one do, and
    why a commit that is cut short anywhere leaves the old image or the new one. */
module Journal {
  import opened Bytes
  import opened Sweep

  const WRITE := 0
  const COMMIT := 1

  datatype Entry = Write(ptr: nat, data: seq<byte>) | Commit

  function Encode(e: Entry): (bs: seq<byte>)
    ensures |bs| >= 4
  {
    match e
    case Write(ptr, data) => ToLe(WRITE, 4) + ToLe(ptr, 8) + ToLe(|data|, 8) + data
    case Commit => ToLe(COMMIT, 4)
  }

  function EncodeAll(es: seq<Entry>): seq<byte> {
    if |es| == 0 then [] else Encode(es[0]) + EncodeAll(es[1..])
  }

  /** The entry's fields fit their eight bytes, and a seek over its data goes forward. */
  predicate Fits(e: Entry) {
    e.Write? ==> e.ptr < 0x8000_0000_0000_0000 && |e.data| < 0x8000_0000_0000_0000
  }

  ghost predicate AllFit(es: seq<Entry>) {
    forall i :: 0 <= i < |es| ==> Fits(es[i])
  }

  /** The bytes of one write put over an image; bytes outside the image are dropped. */
  function Overlay(img: seq<byte>, ptr: nat, data: seq<byte>): (r: seq<byte>)
    ensures |r| == |img|
  {
    seq(|img|, i requires 0 <= i < |img| => if ptr <= i < ptr + |data| then data[i - ptr] else img[i])
  }

  /** `db_check_journal` on the bytes that are left, with the verdict so far. */
  function Check(bs: seq<byte>, verdict: int): int
    decreases |bs|
  {
    if |bs| == 0 then verdict
    else if |bs| < 4 then -1
    else if Le(bs[..4]) == WRITE then
      if |bs| < 20 then -1
      else
        var size := Le(bs[12..20]);
        if size >= 0x8000_0000_0000_0000 then -1
        else Check(if 20 + size <= |bs| then bs[20 + size..] else [], -1)
    else if Le(bs[..4]) == COMMIT then Check(bs[4..], 1)
    else Check(bs[4..], verdict)
  }

  /** `db_replay_journal` on the bytes that are left. A read of 2^63 bytes or more fails, which the program
      does not notice. */
  function Replay(bs: seq<byte>, img: seq<byte>): (r: seq<byte>)
    ensures |r| == |img|
    decreases |bs|
  {
    if |bs| < 4 then img
    else if Le(bs[..4]) == WRITE then
      if |bs| < 20 then img
      else
        var ptr, size := Le(bs[4..12]), Le(bs[12..20]);
        if size >= 0x8000_0000_0000_0000 then Replay(bs[20..], img)
        else if 20 + size > |bs| then Overlay(img, ptr, bs[20..])
        else Replay(bs[20 + size..], Overlay(img, ptr, bs[20..20 + size]))
    else Replay(bs[4..], img)
  }

  /** What all entries together do to an image. */
  function ApplyAll(es: seq<Entry>, img: seq<byte>): (r: seq<byte>)
    ensures |r| == |img|
  {
    if |es| == 0 then img
    else ApplyAll(es[1..], if es[0].Write? then Overlay(img, es[0].ptr, es[0].data) else img)
  }

  /** The image when a replay stops after m bytes have been copied. */
  function PartialReplay(es: seq<Entry>, m: nat, img: seq<byte>): (r: seq<byte>)
    ensures |r| == |img|
  {
    if |es| == 0 then img
    else if es[0].Commit? then PartialReplay(es[1..], m, img)
    else if m < |es[0].data| then Overlay(img, es[0].ptr, es[0].data[..m])
    else PartialReplay(es[1..], m - |es[0].data|, Overlay(img, es[0].ptr, es[0].data))
  }

  function Verdict(es: seq<Entry>, verdict: int): int {
    if |es| == 0 then verdict else Verdict(es[1..], if es[0].Commit? then 1 else -1)
  }

  /** Every write lies inside an image of n bytes. */
  ghost predicate AllInside(es: seq<Entry>, n: nat) {
    forall i :: 0 <= i < |es| && es[i].Write? ==> es[i].ptr + |es[i].data| <= n
  }

  /** A journal of these entries is settled on an image when replaying it changes nothing. */
  ghost predicate Settled(log: seq<Entry>, img: seq<byte>) {
    && AllFit(log)
    && AllInside(log, |img|)
    && ApplyAll(log, img) == img
  }

  // ---- Format ----

  lemma Fields(t: seq<byte>, p: seq<byte>, n: seq<byte>, data: seq<byte>, tail: seq<byte>)
    requires |t| == 4 && |p| == 8 && |n| == 8
    ensures var bs := t + p + n + data + tail;
      && |bs| == 20 + |data| + |tail|
      && bs[..4] == t && bs[4..12] == p && bs[12..20] == n
      && bs[20..20 + |data|] == data && bs[20 + |data|..] == tail
  {
  }

  lemma EncodedWrite(e: Entry, tail: seq<byte>)
    requires Fits(e) && e.Write?
    ensures var bs := Encode(e) + tail;
      && |Encode(e)| == 20 + |e.data| && |bs| == 20 + |e.data| + |tail|
      && Le(bs[..4]) == WRITE && Le(bs[4..12]) == e.ptr && Le(bs[12..20]) == |e.data|
      && bs[20..20 + |e.data|] == e.data && bs[20 + |e.data|..] == tail
  {
    Spans();
    Fields(ToLe(WRITE, 4), ToLe(e.ptr, 8), ToLe(|e.data|, 8), e.data, tail);
    LeRoundTrip(WRITE, 4);
    LeRoundTrip(e.ptr, 8);
    LeRoundTrip(|e.data|, 8);
  }

  lemma EncodedCommit(tail: seq<byte>)
    ensures var bs := Encode(Commit) + tail;
      && |bs| == 4 + |tail| && Le(bs[..4]) == COMMIT && bs[4..] == tail
  {
    Spans();
    assert (Encode(Commit) + tail)[..4] == ToLe(COMMIT, 4);
    LeRoundTrip(COMMIT, 4);
  }

  lemma EncodeAllFirst(es: seq<Entry>, tail: seq<byte>)
    requires |es| > 0
    ensures EncodeAll(es) + tail == Encode(es[0]) + (EncodeAll(es[1..]) + tail)
  {
  }

  /** What a file that has room for so many bytes takes of a write. */
  function Taken(bs: seq<byte>, room: nat): seq<byte> {
    if room < |bs| then bs[..room] else bs
  }

  lemma TakenBoth(a: seq<byte>, b: seq<byte>, room: nat)
    ensures Taken(a + b, room) == if room < |a| then Taken(a, room) else a + Taken(b, room - |a|)
  {
  }

  /** A write of several stretches that ends inside one of them. */
  lemma TakenInside(all: seq<byte>, a: seq<byte>, b: seq<byte>, room: nat)
    requires a + b <= all && |a| <= room < |a| + |b|
    ensures room < |all| && Taken(all, room) == a + Taken(b, room - |a|)
  {
    assert all[..room] == (a + b)[..room];
  }

  lemma {:induction false} EncodeAllConcat(a: seq<Entry>, b: seq<Entry>)
    ensures EncodeAll(a + b) == EncodeAll(a) + EncodeAll(b)
  {
    if |a| == 0 {
      assert a + b == b;
    } else {
      assert (a + b)[1..] == a[1..] + b;
      EncodeAllConcat(a[1..], b);
    }
  }

  /** Reading back whole entries, whatever follows them. */
  lemma {:induction false} ReadEntries(es: seq<Entry>, tail: seq<byte>, verdict: int, img: seq<byte>)
    requires AllFit(es)
    ensures Check(EncodeAll(es) + tail, verdict) == Check(tail, Verdict(es, verdict))
    ensures Replay(EncodeAll(es) + tail, img) == Replay(tail, ApplyAll(es, img))
  {
    if |es| == 0 {
      assert EncodeAll(es) + tail == tail;
    } else {
      EncodeAllFirst(es, tail);
      var rest := EncodeAll(es[1..]) + tail;
      if es[0].Write? {
        EncodedWrite(es[0], rest);
        ReadEntries(es[1..], tail, -1, Overlay(img, es[0].ptr, es[0].data));
      } else {
        EncodedCommit(rest);
        ReadEntries(es[1..], tail, 1, img);
      }
    }
  }

  /** An entry cut short anywhere is never mistaken for a commit. */
  lemma TornEntry(e: Entry, n: nat, verdict: int)
    requires Fits(e) && 0 < n < |Encode(e)|
    ensures Check(Encode(e)[..n], verdict) == -1
  {
    var bs := Encode(e)[..n];
    if e.Write? {
      EncodedWrite(e, []);
      assert Encode(e) + [] == Encode(e);
      if n >= 4 { assert bs[..4] == Encode(e)[..4]; }
      if n >= 20 {
        assert bs[12..20] == Encode(e)[12..20];
        assert 20 + |e.data| > |bs|;
      }
    } else {
      assert |Encode(e)| == 4;
    }
  }

  /** A cut inside a batch of writes before its commit record is never taken for a commit. */
  lemma {:induction false} TornBatch(ws: seq<Entry>, n: nat, verdict: int)
    requires AllFit(ws) && (forall i :: 0 <= i < |ws| ==> ws[i].Write?)
    requires 0 < n < |EncodeAll(ws + [Commit])|
    ensures Check(EncodeAll(ws + [Commit])[..n], verdict) == -1
  {
    var es := ws + [Commit];
    var first := Encode(es[0]);
    var all := EncodeAll(es);
    assert all == first + EncodeAll(es[1..]);
    if n < |first| {
      assert all[..n] == first[..n];
      TornEntry(es[0], n, verdict);
    } else if |ws| > 0 {
      assert es[1..] == ws[1..] + [Commit];
      var tail := EncodeAll(es[1..])[..n - |first|];
      assert all[..n] == first + tail;
      EncodedWrite(es[0], tail);
      if n > |first| {
        TornBatch(ws[1..], n - |first|, -1);
      }
    }
  }

  lemma {:induction false} VerdictOfCommitted(es: seq<Entry>, verdict: int)
    requires |es| > 0 && es[|es| - 1] == Commit
    ensures Verdict(es, verdict) == 1
  {
    if |es| > 1 { VerdictOfCommitted(es[1..], if es[0].Commit? then 1 else -1); }
  }

  /** The bytes of a record, as they stand in the file. */
  lemma RecordBytes(ptr: nat, data: seq<byte>)
    ensures Encode(Write(ptr, data)) == [0, 0, 0, 0] + ToLe(ptr, 8) + ToLe(|data|, 8) + data
    ensures Encode(Commit) == [1, 0, 0, 0]
  {
    assert ToLe(WRITE, 4) == [0, 0, 0, 0] by {
      assert ToLe(0, 1) == [0] && ToLe(0, 2) == [0, 0] && ToLe(0, 3) == [0, 0, 0];
    }
    assert ToLe(COMMIT, 4) == [1, 0, 0, 0] by {
      assert ToLe(0, 1) == [0] && ToLe(0, 2) == [0, 0] && ToLe(0, 3) == [0, 0, 0];
    }
  }

  /** A type that is neither a write nor a commit is passed over, and fewer than four bytes are an error of the check
      and the end of a replay. */
  lemma OtherBytes(kind: seq<byte>, rest: seq<byte>, verdict: int, img: seq<byte>)
    requires 0 < |kind| <= 4 && (|kind| < 4 ==> rest == [])
    requires |kind| == 4 ==> Le(kind) > 1
    ensures |kind| == 4 ==> Check(kind + rest, verdict) == Check(rest, verdict)
    ensures |kind| == 4 ==> Replay(kind + rest, img) == Replay(rest, img)
    ensures |kind| < 4 ==> Check(kind, verdict) == -1 && Replay(kind, img) == img
  {
    if |kind| == 4 { assert (kind + rest)[..4] == kind && (kind + rest)[4..] == rest; }
  }

  // ---- Replay as overwriting ----

  /** Some write of es holds byte x. */
  ghost predicate Touched(es: seq<Entry>, x: nat) {
    exists i :: 0 <= i < |es| && es[i].Write? && es[i].ptr <= x < es[i].ptr + |es[i].data|
  }

  lemma TouchedTail(es: seq<Entry>, x: nat)
    requires |es| > 0
    ensures Touched(es, x) <==>
      (es[0].Write? && es[0].ptr <= x < es[0].ptr + |es[0].data|) || Touched(es[1..], x)
  {
    if Touched(es, x) {
      var i :| 0 <= i < |es| && es[i].Write? && es[i].ptr <= x < es[i].ptr + |es[i].data|;
      if i > 0 { assert es[1..][i - 1] == es[i]; }
    }
    if Touched(es[1..], x) {
      var i :| 0 <= i < |es| - 1 && es[1..][i].Write? && es[1..][i].ptr <= x < es[1..][i].ptr + |es[1..][i].data|;
      assert es[i + 1] == es[1..][i];
    }
  }

  /** A replay does not depend on bytes that it overwrites. */
  lemma {:induction false} ApplyOverwrites(es: seq<Entry>, a: seq<byte>, b: seq<byte>)
    requires |a| == |b|
    requires forall x :: 0 <= x < |a| && a[x] != b[x] ==> Touched(es, x)
    ensures ApplyAll(es, a) == ApplyAll(es, b)
  {
    if |es| == 0 {
      assert a == b;
    } else {
      forall x | 0 <= x < |a| && a[x] != b[x]
        ensures (es[0].Write? && es[0].ptr <= x < es[0].ptr + |es[0].data|) || Touched(es[1..], x)
      {
        TouchedTail(es, x);
      }
      if es[0].Write? {
        ApplyOverwrites(es[1..], Overlay(a, es[0].ptr, es[0].data), Overlay(b, es[0].ptr, es[0].data));
      } else {
        ApplyOverwrites(es[1..], a, b);
      }
    }
  }

  /** A replay, cut short or not, changes only bytes that it writes. */
  lemma {:induction false} PartialTouches(es: seq<Entry>, m: nat, img: seq<byte>, x: nat)
    requires x < |img| && !Touched(es, x)
    ensures PartialReplay(es, m, img)[x] == img[x] == ApplyAll(es, img)[x]
  {
    if |es| > 0 {
      TouchedTail(es, x);
      if es[0].Write? {
        var over := Overlay(img, es[0].ptr, es[0].data);
        PartialTouches(es[1..], if m < |es[0].data| then 0 else m - |es[0].data|, over, x);
      } else {
        PartialTouches(es[1..], m, img, x);
      }
    }
  }

  /** The bytes that a replay copies. */
  function Copied(es: seq<Entry>): nat {
    if |es| == 0 then 0 else (if es[0].Write? then |es[0].data| else 0) + Copied(es[1..])
  }

  /** Where the next byte goes after m of them, and that byte. */
  function ByteAt(es: seq<Entry>, m: nat): (nat, byte)
    requires m < Copied(es)
  {
    if es[0].Commit? then ByteAt(es[1..], m)
    else if m < |es[0].data| then (es[0].ptr + m, es[0].data[m])
    else ByteAt(es[1..], m - |es[0].data|)
  }

  lemma OneByteMore(img: seq<byte>, ptr: nat, data: seq<byte>, m: nat)
    requires m < |data|
    ensures Overlay(img, ptr, data[..m + 1]) == Overlay(Overlay(img, ptr, data[..m]), ptr + m, [data[m]])
  {
  }

  lemma NothingCopied(img: seq<byte>, ptr: nat)
    ensures Overlay(img, ptr, []) == img
  {
  }

  /** A replay that is cut short has copied exactly the first bytes, one after the other. */
  lemma {:induction false} ByteByByte(es: seq<Entry>, m: nat, img: seq<byte>)
    ensures m == 0 ==> PartialReplay(es, m, img) == img
    ensures m < Copied(es) ==> var (at, b) := ByteAt(es, m);
      PartialReplay(es, m + 1, img) == Overlay(PartialReplay(es, m, img), at, [b])
    ensures m >= Copied(es) ==> PartialReplay(es, m, img) == ApplyAll(es, img)
  {
    hide Overlay;
    if |es| > 0 {
      if es[0].Commit? {
        ByteByByte(es[1..], m, img);
      } else if m < |es[0].data| {
        var e := es[0];
        NothingCopied(img, e.ptr);
        assert e.data[..0] == [];
        OneByteMore(img, e.ptr, e.data, m);
        if m + 1 == |e.data| {
          assert e.data[..m + 1] == e.data;
          ByteByByte(es[1..], 0, Overlay(img, e.ptr, e.data));
        }
      } else {
        ByteByByte(es[1..], m - |es[0].data|, Overlay(img, es[0].ptr, es[0].data));
        NothingCopied(img, es[0].ptr);
      }
    }
  }

  /** Finishing a replay that was cut short gives what an undisturbed one gives. */
  lemma ReplayFinishes(es: seq<Entry>, m: nat, img: seq<byte>)
    ensures ApplyAll(es, PartialReplay(es, m, img)) == ApplyAll(es, img)
    ensures ApplyAll(es, ApplyAll(es, img)) == ApplyAll(es, img)
  {
    forall x | 0 <= x < |img| && PartialReplay(es, m, img)[x] != img[x] ensures Touched(es, x) {
      if !Touched(es, x) { PartialTouches(es, m, img, x); }
    }
    forall x | 0 <= x < |img| && ApplyAll(es, img)[x] != img[x] ensures Touched(es, x) {
      if !Touched(es, x) { PartialTouches(es, m, img, x); }
    }
    ApplyOverwrites(es, PartialReplay(es, m, img), img);
    ApplyOverwrites(es, ApplyAll(es, img), img);
  }

  lemma {:induction false} ApplyConcat(a: seq<Entry>, b: seq<Entry>, img: seq<byte>)
    ensures ApplyAll(a + b, img) == ApplyAll(b, ApplyAll(a, img))
  {
    if |a| == 0 {
      assert a + b == b;
    } else {
      assert (a + b)[1..] == a[1..] + b;
      ApplyConcat(a[1..], b, if a[0].Write? then Overlay(img, a[0].ptr, a[0].data) else img);
    }
  }

  /** Bytes the file gains at its end are out of the old journal's reach. */
  lemma {:induction false} ApplyGrown(es: seq<Entry>, img: seq<byte>, more: seq<byte>)
    requires AllInside(es, |img|)
    ensures ApplyAll(es, img + more) == ApplyAll(es, img) + more
  {
    if |es| > 0 {
      if es[0].Write? {
        assert Overlay(img + more, es[0].ptr, es[0].data) == Overlay(img, es[0].ptr, es[0].data) + more;
        ApplyGrown(es[1..], Overlay(img, es[0].ptr, es[0].data), more);
      } else {
        ApplyGrown(es[1..], img, more);
      }
    }
  }

  lemma SettledGrown(log: seq<Entry>, img: seq<byte>, more: seq<byte>)
    requires Settled(log, img)
    ensures Settled(log, img + more)
  {
    ApplyGrown(log, img, more);
  }

  // ---- The writes of one commit ----

  /** The journal entries for regions of the private image. */
  function WritesOf(rs: seq<Region>, priv: seq<byte>): (es: seq<Entry>)
    requires forall i :: 0 <= i < |rs| ==> rs[i].lo <= rs[i].hi <= |priv|
    ensures |es| == |rs|
    ensures forall i :: 0 <= i < |rs| ==> es[i] == Write(rs[i].lo, priv[rs[i].lo..rs[i].hi])
  {
    seq(|rs|, i requires 0 <= i < |rs| => Write(rs[i].lo, priv[rs[i].lo..rs[i].hi]))
  }

  /** Replaying a commit's writes turns any image that agrees with the private one
      outside the regions into the private image. */
  lemma {:induction false} WritesInstall(rs: seq<Region>, priv: seq<byte>, img: seq<byte>)
    requires forall i :: 0 <= i < |rs| ==> rs[i].lo <= rs[i].hi <= |priv|
    requires |img| == |priv|
    requires forall x :: 0 <= x < |img| && img[x] != priv[x] ==> InSome(rs, x)
    ensures ApplyAll(WritesOf(rs, priv) + [Commit], img) == priv
  {
    var es := WritesOf(rs, priv) + [Commit];
    if |rs| == 0 {
      assert img == priv;
      assert es[1..] == [];
    } else {
      var over := Overlay(img, es[0].ptr, es[0].data);
      assert es[1..] == WritesOf(rs[1..], priv) + [Commit];
      forall x | 0 <= x < |img| && over[x] != priv[x] ensures InSome(rs[1..], x) {
        var i :| 0 <= i < |rs| && Within(rs[i], x);
        assert i > 0 && rs[1..][i - 1] == rs[i];
      }
      WritesInstall(rs[1..], priv, over);
    }
  }
}
