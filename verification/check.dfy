/** The integrity sweep (check.go): the content of every queued job is hashed
    and compared with the digest recorded for it. The sweep only reads: it
    takes the jobs as Ctx.Jobs yields them and returns a verdict, with no file
    system in or out. */
module Check {
  import opened Common
  import opened Spool

  datatype ReadError = ReadError

  /** Check(src, checksum): a failed read is an error; otherwise whether the
      BLAKE2b-256 digest (`digest`) of everything read equals the checksum. */
  function Check(digest: Bytes -> Digest, src: Option<Bytes>, checksum: Digest): (r: Result<bool, ReadError>)
    ensures r.Err? <==> src.None?
    ensures src.Some? ==> (r == Ok(true) <==> digest(src.value) == checksum)
  {
    match src
    case None => Err(ReadError)
    case Some(data) => Ok(digest(data) == checksum)
  }

  /** The content of a readable job does not hash to its recorded digest. */
  predicate Mismatch(digest: Bytes -> Digest, job: Job) {
    job.content.Some? && digest(job.content.value) != job.hshValue
  }

  /** The result of checkXx, and how many jobs it read before returning. */
  datatype Verdict = Verdict(bad: bool, examined: nat)

  /** The loop of checkXx from the jobs still to come, with isBad so far: a
      read error returns false at once, whatever was found before; a mismatch
      sets isBad and the loop goes on. */
  function CheckXxFrom(digest: Bytes -> Digest, jobs: seq<Job>, isBad: bool, examined: nat): (v: Verdict)
    ensures examined <= v.examined <= examined + |jobs|
    decreases |jobs|
  {
    if |jobs| == 0 then Verdict(isBad, examined)
    else match Check(digest, jobs[0].content, jobs[0].hshValue)
      case Err(_) => Verdict(false, examined + 1)
      case Ok(gut) => CheckXxFrom(digest, jobs[1..], isBad || !gut, examined + 1)
  }

  /** checkXx over the jobs of one node in one direction. */
  function CheckXx(digest: Bytes -> Digest, jobs: seq<Job>): (v: Verdict)
    ensures v.examined <= |jobs|
  {
    CheckXxFrom(digest, jobs, false, 0)
  }

  predicate AllReadable(jobs: seq<Job>) {
    forall i :: 0 <= i < |jobs| ==> jobs[i].content.Some?
  }

  /** The loop reports bad exactly when no job fails to read and some job (or
      an earlier one, through isBad) mismatches. */
  lemma {:induction false} CheckXxFromBad(digest: Bytes -> Digest, jobs: seq<Job>, isBad: bool, examined: nat)
    ensures CheckXxFrom(digest, jobs, isBad, examined).bad <==>
      AllReadable(jobs) && (isBad || exists i :: 0 <= i < |jobs| && Mismatch(digest, jobs[i]))
    decreases |jobs|
  {
    if |jobs| > 0 && jobs[0].content.Some? {
      var rest := jobs[1..];
      assert forall i :: 1 <= i < |jobs| ==> jobs[i] == rest[i - 1];
      var gut := digest(jobs[0].content.value) == jobs[0].hshValue;
      CheckXxFromBad(digest, rest, isBad || !gut, examined + 1);
    }
  }

  /** The loop reads up to and including the first unreadable job, or all of
      them. */
  lemma {:induction false} CheckXxFromExamined(digest: Bytes -> Digest, jobs: seq<Job>, isBad: bool, examined: nat)
    ensures var v := CheckXxFrom(digest, jobs, isBad, examined);
      && (AllReadable(jobs) ==> v.examined == examined + |jobs|)
      && (forall k :: 0 <= k < |jobs| && jobs[k].content.None? && AllReadable(jobs[..k]) ==> v.examined == examined + k + 1)
    decreases |jobs|
  {
    if |jobs| > 0 && jobs[0].content.Some? {
      var rest := jobs[1..];
      assert forall i :: 1 <= i < |jobs| ==> jobs[i] == rest[i - 1];
      var gut := digest(jobs[0].content.value) == jobs[0].hshValue;
      CheckXxFromExamined(digest, rest, isBad || !gut, examined + 1);
      forall k | 1 <= k < |jobs| && AllReadable(jobs[..k])
        ensures AllReadable(rest[..k - 1])
      {
        assert rest[..k - 1] == jobs[..k][1..];
      }
    }
  }

  /** checkXx is true exactly when every job reads and some job's content
      does not hash to its recorded digest; a read error yields false even
      after a mismatch, and the jobs after it are not read. */
  lemma CheckXxSpec(digest: Bytes -> Digest, jobs: seq<Job>)
    ensures var v := CheckXx(digest, jobs);
      && (v.bad <==> AllReadable(jobs) && exists i :: 0 <= i < |jobs| && Mismatch(digest, jobs[i]))
      && (AllReadable(jobs) ==> v.examined == |jobs|)
      && (forall k :: 0 <= k < |jobs| && jobs[k].content.None? && AllReadable(jobs[..k]) ==> v.examined == k + 1)
  {
    CheckXxFromBad(digest, jobs, false, 0);
    CheckXxFromExamined(digest, jobs, false, 0);
  }

  /** Ctx.Check: the rx queue, then the tx queue, and how many jobs of each
      were read. */
  datatype CtxVerdict = CtxVerdict(bad: bool, rxExamined: nat, txExamined: nat)

  /** `checkXx(rx) || checkXx(tx)`: bad when either queue is bad, and the tx
      queue is not read at all once the rx queue is bad. */
  function CtxCheck(digest: Bytes -> Digest, rx: seq<Job>, tx: seq<Job>): (r: CtxVerdict)
    ensures r.bad <==> CheckXx(digest, rx).bad || CheckXx(digest, tx).bad
    ensures CheckXx(digest, rx).bad ==> r.txExamined == 0
    ensures r.rxExamined == CheckXx(digest, rx).examined
  {
    var rv := CheckXx(digest, rx);
    if rv.bad then CtxVerdict(true, rv.examined, 0)
    else
      var tv := CheckXx(digest, tx);
      CtxVerdict(tv.bad, rv.examined, tv.examined)
  }

  /** In terms of the jobs: Ctx.Check is true exactly when one of the two
      queues reads without error and holds a mismatching job. */
  lemma CtxCheckSpec(digest: Bytes -> Digest, rx: seq<Job>, tx: seq<Job>)
    ensures CtxCheck(digest, rx, tx).bad <==>
      || (AllReadable(rx) && exists i :: 0 <= i < |rx| && Mismatch(digest, rx[i]))
      || (AllReadable(tx) && exists i :: 0 <= i < |tx| && Mismatch(digest, tx[i]))
  {
    CheckXxSpec(digest, rx);
    CheckXxSpec(digest, tx);
  }
}
