/** `post_soap`: up to `HTTP_RETRIES` POSTs of one envelope, a reply counting only when
    the HTTP call succeeds and the body carries no SOAP fault marker. */
module Soap {
  import opened Wrappers
  import opened Text

  newtype byte = x: int | 0 <= x < 256

  type Bytes = seq<byte>

  const HTTP_RETRIES: nat := 3

  /** The ASCII bytes of "<Fault" and ":Fault". */
  const FAULT_OPEN: Bytes := [60, 70, 97, 117, 108, 116]
  const FAULT_QUALIFIED: Bytes := [58, 70, 97, 117, 108, 116]

  /** What one POST yields: the reply's content, or the exception raised by the session or
      by `raise_for_status` (reduced to its message). */
  datatype Attempt = Delivered(content: Bytes) | Raised(reason: string)

  /** What the updater's remote calls can fail with: the last transport error, a SOAP
      fault, or a reply `ET.fromstring` rejects. */
  datatype Error = Transport(reason: string) | SoapFault | Malformed

  /** `b and (b.find(b"<Fault") != -1 or b.find(b":Fault") != -1)` */
  predicate IsFault(b: Bytes) {
    |b| > 0 && (Contains(b, FAULT_OPEN) || Contains(b, FAULT_QUALIFIED))
  }

  /** An attempt `post_soap` returns from. */
  predicate Accepted(a: Attempt) {
    a.Delivered? && !IsFault(a.content)
  }

  /** The exception a rejected attempt leaves in `last_err`. */
  function ErrorOf(a: Attempt): Error {
    if a.Raised? then Transport(a.reason) else SoapFault
  }

  /** The outcome of the attempts from try `i` on, and how many POSTs they take. */
  function Retry(attempt: nat -> Attempt, i: nat): (Result<Bytes, Error>, nat)
    requires i < HTTP_RETRIES
    decreases HTTP_RETRIES - i
  {
    if Accepted(attempt(i)) then (Success(attempt(i).content), i + 1)
    else if i + 1 == HTTP_RETRIES then (Failure(ErrorOf(attempt(i))), i + 1)
    else Retry(attempt, i + 1)
  }

  /** What `post_soap` returns (or raises) when its POSTs turn out as `attempt` says. */
  function Posted(attempt: nat -> Attempt): Result<Bytes, Error> {
    Retry(attempt, 0).0
  }

  method PostSoap(attempt: nat -> Attempt) returns (r: Result<Bytes, Error>, tries: nat)
    ensures (r, tries) == Retry(attempt, 0)
  {
    var lastErr := Transport("");
    for i := 0 to HTTP_RETRIES
      invariant i < HTTP_RETRIES ==> Retry(attempt, 0) == Retry(attempt, i)
      invariant i > 0 ==> lastErr == ErrorOf(attempt(i - 1))
      invariant forall j :: 0 <= j < i ==> !Accepted(attempt(j))
      invariant i == HTTP_RETRIES ==> Retry(attempt, 0) == (Failure(lastErr), HTTP_RETRIES)
    {
      var a := attempt(i);
      if a.Delivered? && !IsFault(a.content) {
        return Success(a.content), i + 1;
      }
      lastErr := ErrorOf(a);
    }
    return Failure(lastErr), HTTP_RETRIES;
  }

  /** The retry loop makes between one and `HTTP_RETRIES` POSTs; it returns the content of
      the first accepted attempt, having made exactly the POSTs up to it, and otherwise
      fails after all `HTTP_RETRIES` attempts with the error of the last one. */
  lemma {:induction false} RetrySpec(attempt: nat -> Attempt, i: nat)
    requires i < HTTP_RETRIES
    ensures var (r, tries) := Retry(attempt, i);
      && i < tries <= HTTP_RETRIES
      && (forall j :: i <= j < tries - 1 ==> !Accepted(attempt(j)))
      && (r.Success? <==> Accepted(attempt(tries - 1)))
      && (r.Success? ==> r.value == attempt(tries - 1).content)
      && (r.Failure? ==> tries == HTTP_RETRIES && r.error == ErrorOf(attempt(tries - 1)))
    decreases HTTP_RETRIES - i
  {
    if !Accepted(attempt(i)) && i + 1 < HTTP_RETRIES {
      RetrySpec(attempt, i + 1);
    }
  }

  lemma PostedSpec(attempt: nat -> Attempt)
    ensures Posted(attempt).Success? <==> exists i :: 0 <= i < HTTP_RETRIES && Accepted(attempt(i))
    ensures Posted(attempt).Success? ==>
      exists i :: 0 <= i < HTTP_RETRIES && Accepted(attempt(i)) && Posted(attempt).value == attempt(i).content
        && forall j :: 0 <= j < i ==> !Accepted(attempt(j))
    ensures Posted(attempt).Failure? ==> Posted(attempt).error == ErrorOf(attempt(HTTP_RETRIES - 1))
  {
    RetrySpec(attempt, 0);
    var (r, tries) := Retry(attempt, 0);
    if r.Success? {
      assert Accepted(attempt(tries - 1));
    }
  }

  /** An empty reply is returned as it is, fault markers or not. */
  lemma EmptyReplyAccepted()
    ensures Accepted(Delivered([]))
  {
  }

  /** A reply containing a fault marker is never returned. */
  lemma FaultNeverReturned(attempt: nat -> Attempt)
    requires forall i :: 0 <= i < HTTP_RETRIES ==> attempt(i).Delivered? && Contains(attempt(i).content, FAULT_OPEN)
    ensures Posted(attempt) == Failure(SoapFault)
  {
    RetrySpec(attempt, 0);
    var (r, tries) := Retry(attempt, 0);
    assert attempt(tries - 1).content != [];
  }
}
