/**
 * `reduce(operator.add, map(f, xs), b'')` as Python 2 runs it: `map`
 * applies `f` to every element in order, stopping at the first exception,
 * and `reduce` concatenates the byte strings it produced.
 */
module Joins {
  import opened Wrappers
  import opened Bytes
  import opened Values

  /** Byte strings joined in order. */
  function Flatten(parts: seq<bytes>): (r: bytes)
    ensures |parts| == 1 ==> r == parts[0]
  {
    if |parts| == 0 then [] else parts[0] + Flatten(parts[1..])
  }

  /** The outcomes of `f` on each element, folded: the first failure, or all the bytes joined. */
  function Join(rs: seq<Result<bytes, Error>>): Result<bytes, Error> {
    if |rs| == 0 then Success([])
    else
      var first :- rs[0];
      var rest :- Join(rs[1..]);
      Success(first + rest)
  }

  predicate AllSucceed(rs: seq<Result<bytes, Error>>) {
    forall i | 0 <= i < |rs| :: rs[i].Success?
  }

  /** The bytes of each outcome, when all succeeded. */
  function Successes(rs: seq<Result<bytes, Error>>): (r: seq<bytes>)
    requires AllSucceed(rs)
    ensures |r| == |rs|
    ensures forall i | 0 <= i < |rs| :: r[i] == rs[i].value
  {
    seq(|rs|, i requires 0 <= i < |rs| && AllSucceed(rs) => rs[i].value)
  }

  /** Outcome `k` is the first failure. */
  predicate FirstFailureAt(rs: seq<Result<bytes, Error>>, k: int) {
    0 <= k < |rs| && rs[k].Failure? && AllSucceed(rs[..k])
  }

  /** The join succeeds exactly when every outcome does, and then holds their bytes in order. */
  lemma {:induction false} JoinSucceeds(rs: seq<Result<bytes, Error>>)
    ensures Join(rs).Success? <==> AllSucceed(rs)
    ensures AllSucceed(rs) ==> Join(rs).value == Flatten(Successes(rs))
  {
    if |rs| > 0 {
      var rest := rs[1..];
      JoinSucceeds(rest);
      assert forall i | 0 <= i < |rest| :: rest[i] == rs[i + 1];
      if AllSucceed(rs) {
        assert Successes(rs)[1..] == Successes(rest);
      }
    }
  }

  /** The join fails with the first failure's error. */
  lemma {:induction false} JoinFailsFirst(rs: seq<Result<bytes, Error>>, k: int)
    requires FirstFailureAt(rs, k)
    ensures Join(rs) == Failure(rs[k].error)
  {
    if k > 0 {
      var rest := rs[1..];
      var before, restBefore := rs[..k], rest[..k - 1];
      assert before[0] == rs[0];
      assert forall i | 0 <= i < k - 1 :: restBefore[i] == before[i + 1];
      JoinFailsFirst(rest, k - 1);
    }
  }

  /** When some outcome fails, the join fails with the error of the first one that does. */
  lemma {:induction false} JoinFails(rs: seq<Result<bytes, Error>>)
    requires !AllSucceed(rs)
    ensures exists k :: FirstFailureAt(rs, k) && Join(rs) == Failure(rs[k].error)
  {
    if rs[0].Failure? {
      assert FirstFailureAt(rs, 0);
      JoinFailsFirst(rs, 0);
    } else {
      var rest := rs[1..];
      assert !AllSucceed(rest);
      JoinFails(rest);
      var k :| FirstFailureAt(rest, k) && Join(rest) == Failure(rest[k].error);
      var before, restBefore := rs[..k + 1], rest[..k];
      assert forall i | 1 <= i < k + 1 :: before[i] == restBefore[i - 1];
      assert FirstFailureAt(rs, k + 1);
      JoinFailsFirst(rs, k + 1);
    }
  }
}
