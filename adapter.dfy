/**
 * The whole of `main` in main.go as one invocation: decode, extract,
 * validate, issue at most one command, shape the envelope.
 */
module Adapter {
  import opened Wrappers
  import opened Text
  import opened Params
  import opened Store
  import opened Dispatch

  /** The input document: its parameter list, or the decoder's complaint when it is malformed. */
  datatype Input = Decoded(params: seq<Param>) | Malformed(detail: string)

  /** One run of `main` against keyspace `ks`, where `fault` decides whether the store call fails. */
  function Run(input: Input, ks: Keyspace, fault: Option<string>): (r: Invocation)
    ensures WellFormed(r.out)
    ensures r.issued.None? ==> r.keyspace == ks
    ensures input.Malformed? ==> r == Invocation(Output(Absent, "failed to decode input: " + input.detail), None, ks)
  {
    match input
    case Malformed(detail) => Invocation(Output(Absent, "failed to decode input: " + detail), None, ks)
    case Decoded(ps) => Respond(Normalize(ps), ks, fault)
  }

  /** `main` step by step: the extraction loop, then the checks and the single store call. */
  method Invoke(input: Input, ks: Keyspace, fault: Option<string>) returns (inv: Invocation)
    ensures inv == Run(input, ks, fault)
  {
    if input.Malformed? {
      return Invocation(Output(Absent, "failed to decode input: " + input.detail), None, ks);
    }
    var f := Extract(input.params);
    var problem := Validate(f);
    if problem.Some? {
      return Invocation(Output(Absent, problem.value), None, ks);
    }
    var cmd := Select(f);
    if cmd.None? {
      return Invocation(Output(Absent, "invalid action"), None, ks);
    }
    var (reply, ks') := Execute(ks, cmd.value, fault);
    inv := Invocation(Shape(cmd.value, reply), cmd, ks');
  }

  /**
   * When every addr parameter is blank, or there is none, the answer is
   * exactly "addr is required", whatever else was sent, and no command is
   * issued.
   */
  lemma AddrRequired(ps: seq<Param>, ks: Keyspace, fault: Option<string>)
    requires forall i :: 0 <= i < |ps| && SlotOf(Lower(ps[i].inputName)) == Some(Addr) ==> TrimSpace(ps[i].compValue) == ""
    ensures Run(Decoded(ps), ks, fault) == Invocation(Output(Absent, "addr is required"), None, ks)
  {
    LastAssignmentWins(ps, Addr);
    match LastAssigner(ps, Addr)
    case None =>
    case Some(i) => TextAssigns(ps[i], Addr);
    AddrChecked(Normalize(ps), ks, fault);
  }
}
