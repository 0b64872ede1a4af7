/** How a writer's running total follows the encoding of a sequence of
    elements or members: one more write either extends the bytes so far by
    that element's encoding or ends the whole sequence with its error. */
module Writes {
  import opened Bytes
  import opened Results
  import opened Values
  import opened ScratchBuffers
  import opened TypeInfos

  /** The buffer held `s0 + acc`, where `acc` is what `head` and the first
      `i` elements encode to, and the write of element `i` then left `s2`
      and returned `e`. On success `next` is the new running total; on
      failure the whole collection failed as that element did. */
  lemma {:induction false} ElementWritten(layout: Layout, es: seq<Value>, i: nat, head: Result<seq<byte>>,
                                          acc: seq<byte>, s0: seq<byte>, s2: seq<byte>, e: Result<()>)
    returns (next: seq<byte>)
    requires forall j | 0 <= j < |es| :: Writable(layout, es[j])
    requires i < |es| && Then(head, Elements(layout, es[..i])) == Ok(acc)
    requires Wrote(s0 + acc, s2, e, Encoding(layout, es[i]))
    ensures e.Ok? ==> s2 == s0 + next && Then(head, Elements(layout, es[..i + 1])) == Ok(next)
    ensures e.Err? ==> Wrote(s0, s2, e, Then(head, Elements(layout, es)))
  {
    WroteBoth(s0, s0 + acc, s2, acc, e, Encoding(layout, es[i]));
    ElementsStep(layout, es, i, head, acc);
    next := if e.Ok? then acc + Encoding(layout, es[i]).value else acc;
  }

  /** The same for member `i` of a type. */
  lemma {:induction false} MemberWritten(layout: Layout, info: TypeInfo, ms: seq<Member>, i: nat, head: Result<seq<byte>>,
                                         acc: seq<byte>, s0: seq<byte>, s2: seq<byte>, e: Result<()>)
    returns (next: seq<byte>)
    requires forall j | 0 <= j < |ms| :: Writable(layout, ms[j].value)
    requires i < |ms| && Then(head, Members(layout, info, ms[..i])) == Ok(acc)
    requires Wrote(s0 + acc, s2, e, MemberEncoding(layout, info, ms[i]))
    ensures e.Ok? ==> s2 == s0 + next && Then(head, Members(layout, info, ms[..i + 1])) == Ok(next)
    ensures e.Err? ==> Wrote(s0, s2, e, Then(head, Members(layout, info, ms)))
  {
    WroteBoth(s0, s0 + acc, s2, acc, e, MemberEncoding(layout, info, ms[i]));
    MembersStep(layout, info, ms, i, head, acc);
    next := if e.Ok? then acc + MemberEncoding(layout, info, ms[i]).value else acc;
  }
}
