/** Status codes and the Result value every fallible TinyTensor operation returns. */
module StatusResult {

  /** The six status codes, in declaration order (Ok is 0). */
  datatype Status = Ok | InvalidArgument | OutOfMemory | AlignmentError | CopyFailed | Unknown

  /** The printable name of a status; every code outside the five named ones reads "Unknown". */
  function ToString(s: Status): (name: string)
    ensures name != ""
    ensures name == "Unknown" <==> s == Unknown
  {
    match s
    case Ok => "Ok"
    case InvalidArgument => "InvalidArgument"
    case OutOfMemory => "OutOfMemory"
    case AlignmentError => "AlignmentError"
    case CopyFailed => "CopyFailed"
    case _ => "Unknown"
  }

  /** Distinct statuses have distinct names, so a name identifies its status. */
  lemma ToStringInjective(s: Status, t: Status)
    ensures ToString(s) == ToString(t) <==> s == t
  {
  }

  /** A status together with an optional diagnostic message. */
  datatype Result = Result(status: Status, msg: string) {

    /** ok(): the status is Ok, that is, it prints as "Ok"; the message plays no part. */
    predicate IsOk(): (ok: bool)
      ensures ok <==> ToString(status) == "Ok"
    {
      ToStringInjective(status, Ok);
      status == Ok
    }

    /** The success value: status Ok and no message. */
    static function OK(): (r: Result)
      ensures r.IsOk() && r.msg == ""
    {
      Result(Ok, "")
    }

    /** A result carrying exactly the given status and message. */
    static function Error(s: Status, m: string := ""): (r: Result)
      ensures r.status == s && r.msg == m
      ensures r.IsOk() <==> s == Ok
    {
      Result(s, m)
    }
  }

  /** Error does not check its status: Error(Ok, m) still reports success. */
  lemma ErrorWithOkIsOk(m: string)
    ensures Result.Error(Ok, m).IsOk()
    ensures m != "" ==> Result.Error(Ok, m) != Result.OK()
    ensures Result.Error(Ok) == Result.OK()
  {
  }
}
