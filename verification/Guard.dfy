/**
 The archive file as it is read: every read is followed by a comparison of stamps, and its bytes
 are used only if nothing changed. The writer on the other side is adversarial within the
 documented limits: it changes the size or the time before it changes data, and never puts the
 old stamp back.
 */
module Guarding {
  import opened Bytes

  /** What identifies one version of a file. */
  datatype Stamp = Stamp(dev: nat, ino: nat, len: nat, mtime: int, mtimeNsec: int)

  predicate SameFile(a: Stamp, b: Stamp) {
    a.dev == b.dev && a.ino == b.ino
  }

  predicate Unchanged(a: Stamp, b: Stamp) {
    a.len == b.len && a.mtime == b.mtime && a.mtimeNsec == b.mtimeNsec
  }

  datatype Change = Removed | Replaced | Modified

  /** Why a transfer of bytes came to its end. */
  datatype Stop = Enough | AtEnd | Failed | Early

  datatype Freshness = Current | Stale | Unknown

  datatype IoError = StaleArchive | NotFound | UnexpectedEof | InvalidData | InvalidInput | OtherError

  /** The answers of one look at the archive: the open file, and its name where names are followed. */
  datatype Look = Look(open: Result<Stamp, IoError>, named: Option<Result<Stamp, IoError>>)

  /** `compare_stamps`: the first difference found, or that none could be looked for. */
  function CompareStamps(baseline: Stamp, look: Look): Result<Option<Change>, IoError> {
    match look.open
    case Err(e) => Err(e)
    case Ok(now) =>
      if !Unchanged(now, baseline) then Ok(Some(Modified))
      else match look.named
        case None => Ok(None)
        case Some(Err(e)) => if e == NotFound then Ok(Some(Removed)) else Err(e)
        case Some(Ok(there)) =>
          if !SameFile(there, baseline) then Ok(Some(Replaced))
          else if !Unchanged(there, baseline) then Ok(Some(Modified))
          else Ok(None)
  }

  /** A system call of the look failed; that the path is gone is an answer. */
  predicate LookFailed(look: Look) {
    look.open.Err? || (look.named.Some? && look.named.value.Err? && look.named.value.error != NotFound)
  }

  predicate ShowsChange(baseline: Stamp, look: Look) {
    CompareStamps(baseline, look).Ok? && CompareStamps(baseline, look).value.Some?
  }

  /** Two stamps with the same size and time. */
  ghost predicate SameVersion(a: Stamp, b: Stamp) {
    (a.len, a.mtime, a.mtimeNsec) == (b.len, b.mtime, b.mtimeNsec)
  }

  /**
   Nothing is found exactly when every stamp that was looked at has the size and time of the mount,
   and the path, if looked at, names the same device and file; a removed path, another file and
   another version are told apart; and no answer comes only from a failed call.
   */
  lemma NoChangeFound(baseline: Stamp, look: Look)
    ensures CompareStamps(baseline, look) == Ok(None) <==>
      && look.open.Ok? && SameVersion(look.open.value, baseline)
      && (look.named.Some? ==>
          && look.named.value.Ok? && SameVersion(look.named.value.value, baseline)
          && (look.named.value.value.dev, look.named.value.value.ino) == (baseline.dev, baseline.ino))
    ensures CompareStamps(baseline, look) == Ok(Some(Removed)) <==>
      && look.open.Ok? && SameVersion(look.open.value, baseline) && look.named == Some(Err(NotFound))
    ensures CompareStamps(baseline, look) == Ok(Some(Replaced)) <==>
      && look.open.Ok? && SameVersion(look.open.value, baseline)
      && look.named.Some? && look.named.value.Ok?
      && (look.named.value.value.dev, look.named.value.value.ino) != (baseline.dev, baseline.ino)
    ensures CompareStamps(baseline, look).Err? ==> LookFailed(look)
  {
  }

  /** Some bytes are what a file holds from an offset on. */
  ghost predicate Holds(bytes: seq<byte>, file: seq<byte>, offset: nat) {
    bytes == [] || (offset + |bytes| <= |file| && bytes == file[offset..offset + |bytes|])
  }

  lemma HoldsOneMore(bytes: seq<byte>, file: seq<byte>, offset: nat)
    requires Holds(bytes, file, offset) && offset + |bytes| < |file|
    ensures Holds(bytes + [file[offset + |bytes|]], file, offset)
  {
  }

  lemma HoldsPart(bytes: seq<byte>, file: seq<byte>, offset: nat, from: nat, to: nat)
    requires Holds(bytes, file, offset) && from <= to <= |bytes|
    ensures Holds(bytes[from..to], file, offset + from)
  {
    if bytes != [] {
      var lo, hi := offset + from, offset + to;
      assert |file[lo..hi]| == to - from;
      forall i | 0 <= i < to - from ensures bytes[from..to][i] == file[lo..hi][i] {
        assert bytes[from + i] == file[offset + (from + i)];
      }
      assert bytes[from..to] == file[lo..hi];
    }
  }

  /** The file underneath, with a writer that may act whenever it is not being looked at. */
  class Disk {
    var data: seq<byte>
    var stamp: Stamp
    const baseline: Stamp
    const mounted: seq<byte>

    /** The documented limit: as long as the stamp is the old one, so is the data. */
    ghost predicate Honest()
      reads this
    {
      Unchanged(stamp, baseline) ==> data == mounted
    }

    constructor (data: seq<byte>, stamp: Stamp)
      ensures Honest() && mounted == data && baseline == stamp
    {
      this.data, this.stamp, this.baseline, this.mounted := data, stamp, stamp, data;
    }

    /** Anything the writer may do in one go: move the stamp, and only then change data. */
    method WriterRuns()
      requires Honest()
      modifies this
      ensures Honest()
      ensures Unchanged(stamp, baseline) ==> Unchanged(old(stamp), baseline)
    {
      var moves: bool := *;
      var next: Stamp := *;
      if moves && !Unchanged(next, baseline) {
        stamp := next;
      }
      if !Unchanged(stamp, baseline) {
        var bytes: seq<byte> := *;
        data := bytes;
      }
    }
  }

  class GuardedFile {
    const disk: Disk
    /** Whether the path is examined too, because the descriptor can follow it. */
    const followsPath: bool
    var stale: bool
    var unsure: bool
    /** How many system calls have failed so far, reads and looks alike. */
    ghost var failures: nat

    /** No failure was forgotten and the latch was not cleared since an earlier moment. */
    ghost predicate Later(failures: nat, stale: bool)
      reads this
    {
      this.failures >= failures && (stale ==> this.stale)
    }

    lemma LaterMeans(failures: nat, stale: bool)
      requires Later(failures, stale)
      ensures this.failures >= failures && (stale ==> this.stale)
    {
    }

    lemma IsLater(failures: nat, stale: bool)
      requires this.failures >= failures && (stale ==> this.stale)
      ensures Later(failures, stale)
    {
    }

    constructor (disk: Disk, followsPath: bool)
      ensures this.disk == disk && !stale && !unsure && failures == 0
    {
      this.disk, this.followsPath := disk, followsPath;
      stale, unsure, failures := false, false, 0;
    }

    /** One look: either call can fail, and what the path names is anybody's guess. */
    method Examine() returns (look: Look)
      modifies this`failures
      ensures look.open.Ok? ==> look.open.value == disk.stamp
      ensures look.named.Some? <==> followsPath
      ensures failures == old(failures) + (if LookFailed(look) then 1 else 0)
    {
      var failure: IoError := *;
      var fails: bool := *;
      var there: Result<Stamp, IoError> := *;
      look := Look(if fails then Err(failure) else Ok(disk.stamp), if followsPath then Some(there) else None);
      failures := failures + (if LookFailed(look) then 1 else 0);
    }

    /**
     `verify`: a change that is known is reported without looking; otherwise the answer is what
     one look finds, and a change found is latched. Success means the stamp is still the old one.
     */
    method Verify() returns (r: Result<(), IoError>, ghost look: Look)
      modifies this`stale, this`unsure, this`failures
      ensures look.open.Ok? ==> look.open.value == disk.stamp
      ensures look.named.Some? <==> followsPath
      ensures stale == (old(stale) || ShowsChange(disk.baseline, look))
      ensures r == (if stale then Err(StaleArchive)
                    else if CompareStamps(disk.baseline, look).Ok? then Ok(()) else Err(OtherError))
      ensures r.Ok? ==> Unchanged(disk.stamp, disk.baseline) && !unsure
      ensures r == Err(OtherError) ==> unsure && failures > old(failures)
      ensures failures >= old(failures)
    {
      look := Look(Err(OtherError), if followsPath then Some(Err(OtherError)) else None);
      if stale {
        return Err(StaleArchive), look;
      }
      var seen := Examine();
      look := seen;
      match CompareStamps(disk.baseline, seen)
      case Ok(None) =>
        unsure := false;
        return Ok(()), look;
      case Ok(Some(change)) =>
        Mark();
        return Err(StaleArchive), look;
      case Err(e) =>
        unsure := true;
        return Err(OtherError), look;
    }

    /** `mark`: a change is permanent. */
    method Mark()
      modifies this`stale
      ensures stale
    {
      stale := true;
    }

    /** `check`: the same comparison, as an answer. */
    method Check() returns (f: Freshness)
      modifies this`stale, this`unsure, this`failures
      ensures f == Current ==> Unchanged(disk.stamp, disk.baseline)
      ensures f == Stale <==> stale
      ensures old(stale) ==> f == Stale
      ensures f == Unknown ==> !stale && unsure && failures > old(failures)
      ensures failures >= old(failures)
    {
      var r, look := Verify();
      f := if r.Ok? then Current else if stale then Stale else Unknown;
    }

    /**
     The system's read: bytes arrive one by one with the writer running in between, until there
     are enough, the file ends, something fails or, unless all are wanted, the system stops early
     with some of them.
     As long as the stamp has not moved they are bytes of the mounted file.
     */
    method Transfer(buf: array<byte>, want: nat, offset: nat, all: bool) returns (n: nat, stop: Stop)
      requires disk.Honest() && want <= buf.Length
      modifies disk, buf, this`failures
      ensures disk.Honest() && n <= want && buf[want..] == old(buf[want..])
      ensures failures == old(failures) + (if stop == Failed then 1 else 0)
      ensures stop == Enough <==> n == want
      ensures stop == Early ==> 0 < n && !all
      ensures Unchanged(disk.stamp, disk.baseline) ==> Holds(buf[..n], disk.mounted, offset)
      ensures Unchanged(disk.stamp, disk.baseline) && stop == AtEnd ==> offset + n >= |disk.mounted|
    {
      n, stop := 0, Enough;
      while n < want
        invariant n <= want && disk.Honest() && stop == Enough && failures == old(failures)
        invariant Unchanged(disk.stamp, disk.baseline) ==> Holds(buf[..n], disk.mounted, offset)
        invariant buf[want..] == old(buf[want..])
      {
        disk.WriterRuns();
        var fails: bool, early: bool := *, *;
        if fails {
          stop := Failed;
          failures := failures + 1;
          return;
        } else if early && n > 0 && !all {
          stop := Early;
          return;
        } else if offset + n >= |disk.data| {
          stop := AtEnd;
          return;
        }
        if Unchanged(disk.stamp, disk.baseline) {
          HoldsOneMore(buf[..n], disk.mounted, offset);
        }
        ghost var copied := buf[..n];
        buf[n] := disk.data[offset + n];
        assert buf[..n + 1] == copied + [buf[n]];
        n := n + 1;
      }
    }

    /** `read_at`: some of the bytes, handed over only if the stamps still agree afterwards. */
    method ReadAt(buf: array<byte>, want: nat, offset: nat) returns (r: Result<nat, IoError>)
      requires disk.Honest() && want <= buf.Length
      modifies this, disk, buf
      ensures disk.Honest()
      ensures r.Ok? ==> r.value <= want && Holds(buf[..r.value], disk.mounted, offset)
      ensures r == Ok(0) && want > 0 ==> offset >= |disk.mounted|
      ensures r.Err? ==> r.error in {StaleArchive, OtherError}
      ensures buf[want..] == old(buf[want..])
      ensures old(stale) ==> stale
      ensures r == Err(StaleArchive) <==> stale
      ensures failures >= old(failures) && (r.Err? ==> failures > old(failures) || stale)
    {
      var n, stop := Transfer(buf, want, offset, false);
      disk.WriterRuns();
      var verified, look := Verify();
      r := if verified.Err? then Err(verified.error) else if stop == Failed then Err(OtherError) else Ok(n);
    }

    /** `read_exact_at`: all of the bytes, under the same condition. */
    method ReadExactAt(buf: array<byte>, want: nat, offset: nat) returns (r: Result<(), IoError>)
      requires disk.Honest() && want <= buf.Length
      modifies this, disk, buf
      ensures disk.Honest()
      ensures r.Ok? ==> Holds(buf[..want], disk.mounted, offset)
      ensures r == Err(UnexpectedEof) ==> offset + want > |disk.mounted|
      ensures r.Err? ==> r.error in {StaleArchive, UnexpectedEof, OtherError}
      ensures buf[want..] == old(buf[want..])
      ensures old(stale) ==> stale && r == Err(StaleArchive)
      ensures r == Err(StaleArchive) <==> stale
      ensures failures >= old(failures)
      ensures r.Err? ==> failures > old(failures) || stale || offset + want > |disk.mounted|
    {
      var n, stop := Transfer(buf, want, offset, true);
      disk.WriterRuns();
      var verified, look := Verify();
      r := if verified.Err? then Err(verified.error)
           else if stop == Enough then Ok(())
           else if stop == AtEnd then Err(UnexpectedEof) else Err(OtherError);
    }
  }
}
