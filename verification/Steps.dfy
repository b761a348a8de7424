/** What a diagram is drawn from: `DiagramStep` of app/frontend/src/lib/bart/diagram.ts. `at` and
    `lines` number the trace lines a step speaks for; the source passes the lines themselves on, to
    find causes. */
module Steps {
  import opened Lex

  /** What a line states where its outcome goes; `Errored` is an exception in a condition. */
  datatype TraceOutcome = Stated(value: bool) | Errored | Unstated

  datatype Quant = Any | All

  datatype Operator = And | Or | Single

  datatype DiagramStep =
    | Request(level: nat, from: nat, to: nat, resource: string, outcome: Option<bool>, grantedBy: Option<string>, lines: seq<nat>)
    | Candidates(level: nat, from: nat, quantifier: Quant, pattern: string, matched: seq<nat>, at: nat)
    | Cycle(level: nat, from: nat, to: nat, resource: string, at: nat)
    | FrameOpen(policy: nat, operator: Operator, rule: string)
    | FrameSeparator
    | FrameClose(closing: Option<bool>)

  predicate Marker(step: DiagramStep) { step.FrameOpen? || step.FrameSeparator? || step.FrameClose? }
}
