/** A promise chain over a sequence of requests, as the publisher's command
    line builds them: each request goes out once the previous one was
    answered, the answers are concatenated in request order, and the first
    failed request rejects the chain, so later requests are never made. */
module Chains {
  import opened Wrappers
  import opened Seqs

  /** A request's answer: the `n`-th call of the chain with request `a`
      yields a list, or fails. */
  type Call<!A, B> = (nat, A) -> Result<seq<B>, string>

  /** The requests made, and the concatenated answers or the failure that
      ended the chain. */
  datatype Exchange<A, B> = Exchange(sent: seq<A>, result: Result<seq<B>, string>)

  /** The list a successful answer carries. */
  function Answer<B>(r: Result<seq<B>, string>): seq<B> {
    if r.Success? then r.value else []
  }

  /** The answers to all requests, in request order. */
  function Answers<A, B>(reqs: seq<A>, call: Call<A, B>, first: nat): seq<seq<B>> {
    seq(|reqs|, i requires 0 <= i < |reqs| => Answer(call(first + i, reqs[i])))
  }

  /** The position of the first request whose call fails, or the number of
      requests when none does. */
  function FirstRejected<A, B>(reqs: seq<A>, call: Call<A, B>, first: nat): (k: nat)
    ensures k <= |reqs|
    ensures forall i :: 0 <= i < k ==> call(first + i, reqs[i]).Success?
    ensures k < |reqs| ==> call(first + k, reqs[k]).Failure?
  {
    if |reqs| == 0 || call(first, reqs[0]).Failure? then 0
    else
      var k := FirstRejected(reqs[1..], call, first + 1);
      assert forall i :: 0 < i < |reqs| ==> reqs[i] == reqs[1..][i - 1];
      1 + k
  }

  /** The chain over `reqs`, its calls numbered from `first`: every request
      up to the first rejected one is made, and no later one; the chain
      resolves to the concatenated answers when none is rejected, and
      rejects with that call's error otherwise. */
  function SendAll<A, B>(reqs: seq<A>, call: Call<A, B>, first: nat): (x: Exchange<A, B>)
    ensures FirstRejected(reqs, call, first) == |reqs| ==>
      x == Exchange(reqs, Success(Flatten(Answers(reqs, call, first))))
    ensures FirstRejected(reqs, call, first) < |reqs| ==>
      x == Exchange(reqs[..FirstRejected(reqs, call, first) + 1],
                    Failure(call(first + FirstRejected(reqs, call, first), reqs[FirstRejected(reqs, call, first)]).error))
  {
    if |reqs| == 0 then Exchange([], Success([]))
    else
      match call(first, reqs[0])
      case Failure(e) => Exchange([reqs[0]], Failure(e))
      case Success(u) =>
        var x := SendAll(reqs[1..], call, first + 1);
        var k := FirstRejected(reqs[1..], call, first + 1);
        assert FirstRejected(reqs, call, first) == k + 1;
        if k == |reqs| - 1 then
          AnswersTail(reqs, call, first);
          assert reqs == [reqs[0]] + reqs[1..];
          Exchange(reqs, Success(u + x.result.value))
        else
          assert [reqs[0]] + reqs[1..][..k + 1] == reqs[..k + 2];
          assert reqs[1..][k] == reqs[k + 1];
          Exchange([reqs[0]] + x.sent, x.result)
  }

  lemma AnswersTail<A, B>(reqs: seq<A>, call: Call<A, B>, first: nat)
    requires |reqs| > 0
    ensures Flatten(Answers(reqs, call, first)) == Answer(call(first, reqs[0])) + Flatten(Answers(reqs[1..], call, first + 1))
  {
    assert Answers(reqs, call, first)[1..] == Answers(reqs[1..], call, first + 1);
  }

  /** The requests made are a non-empty prefix of the requests, all of them
      when the chain resolves. */
  lemma SentPrefix<A, B>(reqs: seq<A>, call: Call<A, B>, first: nat)
    ensures |SendAll(reqs, call, first).sent| <= |reqs|
    ensures SendAll(reqs, call, first).sent == reqs[..|SendAll(reqs, call, first).sent|]
    ensures SendAll(reqs, call, first).result.Success? ==> SendAll(reqs, call, first).sent == reqs
    ensures |reqs| > 0 ==> |SendAll(reqs, call, first).sent| > 0
  {
  }
}
