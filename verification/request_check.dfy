/**
 * The required-field check that runs before an uploaded image is processed.
 *
 * The request's form is given by its set of keys, its uploaded files by a
 * map from key to file (`F` is the file object, left abstract). The
 * error-logging callback is modelled by the log of its calls: the method
 * receives the log so far and returns it with the calls it made appended.
 */
module RequestCheck {
  import opened Opt

  /** The two parts of a request a field can be looked up in. */
  datatype Part = Form | Files

  datatype Field = Field(key: string, part: Part)

  /** The required fields, in the order in which they are checked. */
  const RequiredFields: seq<Field> := [Field("timestamp", Form), Field("address", Form), Field("image", Files)]

  /** The error response with its HTTP status, or the fields of an accepted request. */
  datatype Outcome<F> =
    | Rejected(error: string, status: int)
    | Accepted(timestamp: Option<string>, address: Option<string>, image: F)

  /** One call of the error-logging callback. */
  datatype LogEntry<F> = LogEntry(timestamp: Option<string>, address: Option<string>, outcome: Outcome<F>)

  const BadRequest: int := 400

  /** The message of the response that reports a missing field. */
  function MissingMessage(key: string): (m: string)
    ensures |m| == |key| + 12
    ensures m[..3] == "No " && m[|m| - 9..] == " provided"
    ensures m[3..|m| - 9] == key
  {
    "No " + key + " provided"
  }

  /** Different fields are reported with different messages: the key can be read back from the message. */
  lemma MissingMessageInjective(a: string, b: string)
    ensures MissingMessage(a) == MissingMessage(b) <==> a == b
  {
    if MissingMessage(a) == MissingMessage(b) {
      var m := MissingMessage(a);
      assert a == m[3..|m| - 9] == b;
    }
  }

  predicate Present<F>(field: Field, form: set<string>, files: map<string, F>)
  {
    match field.part
    case Form => field.key in form
    case Files => field.key in files
  }

  /**
   * Looks the required fields up in order. The first one missing ends the
   * check: it is logged once, with no timestamp and no address, and returned
   * as a 400 response. When all are present, the image file is returned
   * with the timestamp and address still unset.
   */
  method CheckRequest<F(==)>(form: set<string>, files: map<string, F>, log: seq<LogEntry<F>>)
    returns (outcome: Outcome<F>, log': seq<LogEntry<F>>)
    ensures "timestamp" !in form ==> outcome == Rejected(MissingMessage("timestamp"), BadRequest)
    ensures "timestamp" in form && "address" !in form ==> outcome == Rejected(MissingMessage("address"), BadRequest)
    ensures "timestamp" in form && "address" in form && "image" !in files
            ==> outcome == Rejected(MissingMessage("image"), BadRequest)
    ensures outcome.Accepted? <==> "timestamp" in form && "address" in form && "image" in files
    ensures outcome.Accepted? ==> outcome == Accepted(None, None, files["image"]) && log' == log
    ensures outcome.Rejected? ==> log' == log + [LogEntry(None, None, outcome)]
  {
    var timestamp: Option<string>, address: Option<string> := None, None;
    log' := log;
    for i := 0 to |RequiredFields|
      invariant log' == log
      invariant forall k :: 0 <= k < i ==> Present(RequiredFields[k], form, files)
    {
      var field := RequiredFields[i];
      if !Present(field, form, files) {
        outcome := Rejected(MissingMessage(field.key), BadRequest);
        assert i > 0 ==> Present(RequiredFields[0], form, files);
        assert i > 1 ==> Present(RequiredFields[1], form, files);
        log' := log' + [LogEntry(timestamp, address, outcome)];
        return;
      }
    }
    assert Present(RequiredFields[0], form, files) && Present(RequiredFields[1], form, files);
    assert Present(RequiredFields[2], form, files);
    outcome := Accepted(timestamp, address, files["image"]);
  }
}
