/** What a filtered read promises, stated on the bytes of the stream alone. A filter is any
    machine that answers yes or no to a record and may change its own state in doing so; reading
    without a filter is the machine that always answers yes. */
module Selection {
  import opened Bytes
  import opened Records

  type Step<!F> = (F, Record) -> (F, bool)

  /** The records a filter accepts out of a sequence, its state threaded through all of them. */
  function Select<F>(rs: seq<Record>, step: Step<F>, f: F): (kept: seq<Record>) {
    if rs == [] then [] else
      var (g, yes) := step(f, rs[0]);
      (if yes then [rs[0]] else []) + Select(rs[1..], step, g)
  }

  /** The filter's state after a sequence of records. */
  function Final<F>(rs: seq<Record>, step: Step<F>, f: F): F {
    if rs == [] then f else Final(rs[1..], step, step(f, rs[0]).0)
  }

  lemma {:induction false} SelectSnoc<F>(rs: seq<Record>, r: Record, step: Step<F>, f: F)
    ensures Final(rs + [r], step, f) == step(Final(rs, step, f), r).0
    ensures Select(rs + [r], step, f) == Select(rs, step, f) + (if step(Final(rs, step, f), r).1 then [r] else [])
  {
    if rs == [] {
      assert ([] + [r])[1..] == [];
    } else {
      assert (rs + [r])[1..] == rs[1..] + [r];
      SelectSnoc(rs[1..], r, step, step(f, rs[0]).0);
    }
  }

  /** The filter, now in state `g`, has rejected all of the records. */
  ghost predicate Rejected<F>(step: Step<F>, f: F, rs: seq<Record>, g: F) {
    g == Final(rs, step, f) && Select(rs, step, f) == []
  }

  /** It has accepted the last of them, and no other. */
  ghost predicate LastAccepted<F>(step: Step<F>, f: F, rs: seq<Record>, g: F) {
    rs != [] && g == Final(rs, step, f) && Select(rs, step, f) == [rs[|rs| - 1]]
  }

  lemma FirstVerdict<F>(step: Step<F>, f: F, r: Record)
    ensures Rejected(step, f, [], f)
    ensures var (h, yes) := step(f, r); if yes then LastAccepted(step, f, [r], h) else Rejected(step, f, [r], h)
  {
    assert [r][1..] == [];
  }

  lemma {:induction false} SelectAppend<F>(rs: seq<Record>, more: seq<Record>, step: Step<F>, f: F)
    ensures Final(rs + more, step, f) == Final(more, step, Final(rs, step, f))
    ensures Select(rs + more, step, f) == Select(rs, step, f) + Select(more, step, Final(rs, step, f))
  {
    if rs == [] {
      assert [] + more == more;
    } else {
      assert (rs + more)[1..] == rs[1..] + more;
      SelectAppend(rs[1..], more, step, step(f, rs[0]).0);
    }
  }

  lemma VerdictsJoin<F>(step: Step<F>, f: F, rs: seq<Record>, g: F, more: seq<Record>, h: F)
    requires Rejected(step, f, rs, g)
    ensures Rejected(step, g, more, h) ==> Rejected(step, f, rs + more, h)
    ensures LastAccepted(step, g, more, h) ==> LastAccepted(step, f, rs + more, h)
  {
    SelectAppend(rs, more, step, f);
  }

  /** A filter's state after `n` questions about one and the same record. */
  function Retried<F>(step: Step<F>, f: F, r: Record, n: nat): F {
    if n == 0 then f else step(Retried(step, f, r, n - 1), r).0
  }

  /** Question number `n` is the first that the filter answers with yes. */
  ghost predicate FirstYes<F(!new)>(step: Step<F>, f: F, r: Record, n: nat) {
    step(Retried(step, f, r, n), r).1 && forall i: nat :: i < n ==> !step(Retried(step, f, r, i), r).1
  }

  /** The outcome of looking for the next accepted record: `count` includes all records read so far. */
  datatype Search<F> =
    | Found(record: Record, rest: seq<byte>, state: F, count: nat)
    | Missing(rest: seq<byte>, state: F, count: nat)

  /** The search in the bytes `b`, after `n` records. */
  function Seek<F>(b: seq<byte>, cap: nat, step: Step<F>, f: F, n: nat): Search<F>
    decreases |b|
  {
    if !Readable(b, cap) then Missing(b, f, n) else
      var (g, yes) := step(f, b[..Size(b)]);
      if yes then Found(b[..Size(b)], b[Size(b)..], g, n + 1) else Seek(b[Size(b)..], cap, step, g, n + 1)
  }

  /** One search peels exactly one element off the selection from the one-shot parse. */
  lemma {:induction false} SeekSelect<F>(b: seq<byte>, cap: nat, step: Step<F>, f: F, n: nat)
    ensures Select(Parse(b, cap), step, f)
         == match Seek(b, cap, step, f, n)
            case Found(r, rest, g, _) => [r] + Select(Parse(rest, cap), step, g)
            case Missing(_, _, _) => []
    ensures Seek(b, cap, step, f, n).Missing? ==> !Readable(Seek(b, cap, step, f, n).rest, cap)
    ensures Seek(b, cap, step, f, n).Found? ==> |Seek(b, cap, step, f, n).rest| < |b|
    decreases |b|
  {
    if Readable(b, cap) {
      var rs := Parse(b, cap);
      assert rs[0] == b[..Size(b)] && rs[1..] == Parse(b[Size(b)..], cap);
      var (g, yes) := step(f, rs[0]);
      if !yes {
        SeekSelect(b[Size(b)..], cap, step, g, n + 1);
      }
    }
  }

  /** A found record moves from what is left to select to what was delivered. */
  lemma {:induction false} SeekDelivers<F>(
    b: seq<byte>, f: F, n: nat, found: Search<F>, cap: nat, step: Step<F>, out: seq<Record>)
    requires found.Found? && Seek(b, cap, step, f, n) == found
    ensures out + Select(Parse(b, cap), step, f) == (out + [found.record]) + Select(Parse(found.rest, cap), step,
      found.state)
    ensures |found.rest| < |b|
  {
    SeekSelect(b, cap, step, f, n);
    Regroup(out, found.record, Select(Parse(found.rest, cap), step, found.state));
  }

  lemma Regroup(out: seq<Record>, r: Record, more: seq<Record>)
    ensures out + ([r] + more) == (out + [r]) + more
  {
  }

  /** Stopping on the way leaves the selection as it was. */
  lemma {:induction false} SeekPauses<F>(
    b: seq<byte>, f: F, n: nat, c: seq<byte>, g: F, k: nat, cap: nat, step: Step<F>)
    requires Seek(b, cap, step, f, n) == Seek(c, cap, step, g, k)
    ensures Select(Parse(b, cap), step, f) == Select(Parse(c, cap), step, g)
  {
    SeekSelect(b, cap, step, f, n);
    SeekSelect(c, cap, step, g, k);
  }
}
