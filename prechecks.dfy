/** The precheck stage of twin.macro: validation rules run over one macro
    invocation's context before the invocation is rewritten into styling code.
    A rule either returns normally (None) or throws an error carrying a message
    (Some(message)); the runner stops at the first rule that throws. */
module Prechecks {
  import opened Wrappers

  /** One macro invocation as the host transform describes it. Only
      `classNameRaw` is read by the rules of this module; `extra` stands for the
      host's other fields (source location, invocation kind, ...). */
  datatype Context = Context(classNameRaw: string, extra: map<string, string>)

  /** A rule: None when the check passes, Some(message) when it throws. */
  type Precheck = Context -> Option<string>

  /** The diagnostic formatter `logBadGood(bad, good)`; its layout is not part
      of this model, so every operation that uses it takes it as a parameter. */
  type Formatter = (string, string) -> string

  // ---------------------------------------------------------------------------
  // throwIf and precheckGroup
  // ---------------------------------------------------------------------------

  /** throwIf: throws the message produced by the thunk exactly when the
      condition holds; the thunk is only forced in that case. */
  function ThrowIf(condition: bool, message: () -> string): Option<string>
  {
    if condition then Some(message()) else None
  }

  const GroupMessagePrefix: string := "\"group\" must be added as className:\n\n"
  const BadSnippet: string := "tw`group`"
  const GoodSnippet: string := "<div className=\"group\">"

  /** The message precheckGroup throws: the fixed prefix, the formatter's
      bad/good block with the bad snippet first, then a newline. */
  function GroupMessage(logBadGood: Formatter): (m: string)
    ensures |m| == |GroupMessagePrefix| + |logBadGood(BadSnippet, GoodSnippet)| + 1
    ensures m[..|GroupMessagePrefix|] == GroupMessagePrefix
    ensures m[|GroupMessagePrefix|..|m| - 1] == logBadGood(BadSnippet, GoodSnippet)
    ensures m[|m| - 1] == '\n'
  {
    GroupMessagePrefix + logBadGood(BadSnippet, GoodSnippet) + "\n"
  }

  /** precheckGroup: rejects an invocation whose raw class string is exactly
      "group". */
  function PrecheckGroup(logBadGood: Formatter, context: Context): (r: Option<string>)
    ensures r.Some? <==> context.classNameRaw == "group"
    ensures r.Some? ==> r.value == GroupMessage(logBadGood)
  {
    ThrowIf(context.classNameRaw == "group", () => GroupMessage(logBadGood))
  }

  /** The rule precheckGroup as an entry of a registry. */
  function GroupRule(logBadGood: Formatter): Precheck
  {
    context => PrecheckGroup(logBadGood, context)
  }

  /** precheckGroup reads nothing of the context but `classNameRaw`. */
  lemma PrecheckGroupReadsOnlyClassName(logBadGood: Formatter, c1: Context, c2: Context)
    requires c1.classNameRaw == c2.classNameRaw
    ensures PrecheckGroup(logBadGood, c1) == PrecheckGroup(logBadGood, c2)
  {
  }

  /** The comparison is strict equality: class strings that merely contain or
      start with "group" pass. */
  lemma PrecheckGroupIsExactMatch(logBadGood: Formatter, extra: map<string, string>)
    ensures PrecheckGroup(logBadGood, Context("group", extra)).Some?
    ensures PrecheckGroup(logBadGood, Context("group-hover", extra)) == None
    ensures PrecheckGroup(logBadGood, Context("flex group", extra)) == None
    ensures PrecheckGroup(logBadGood, Context("group ", extra)) == None
    ensures PrecheckGroup(logBadGood, Context("", extra)) == None
    ensures PrecheckGroup(logBadGood, Context("text-purple-500", extra)) == None
  {
  }

  /** `needle` occurs in `hay` as a contiguous piece. */
  ghost predicate Contains(hay: string, needle: string)
  {
    exists pre: string, post: string :: hay == pre + needle + post
  }

  /** If the formatter embeds both snippets verbatim, as a bad/good block is
      meant to, the thrown message shows the developer both of them. */
  lemma GroupMessageShowsBothSnippets(logBadGood: Formatter)
    requires Contains(logBadGood(BadSnippet, GoodSnippet), BadSnippet)
    requires Contains(logBadGood(BadSnippet, GoodSnippet), GoodSnippet)
    ensures Contains(GroupMessage(logBadGood), BadSnippet)
    ensures Contains(GroupMessage(logBadGood), GoodSnippet)
  {
    var block := logBadGood(BadSnippet, GoodSnippet);
    ContainsInMiddle(GroupMessagePrefix, block, "\n", BadSnippet);
    ContainsInMiddle(GroupMessagePrefix, block, "\n", GoodSnippet);
  }

  lemma ContainsInMiddle(left: string, middle: string, right: string, needle: string)
    requires Contains(middle, needle)
    ensures Contains(left + middle + right, needle)
  {
    var pre: string, post: string :| middle == pre + needle + post;
    calc {
      left + middle + right;
      left + (pre + needle + post) + right;
      (left + pre) + needle + (post + right);
    }
  }

  // ---------------------------------------------------------------------------
  // doPrechecks
  // ---------------------------------------------------------------------------

  /** Rule i is the first rule of the registry that throws on the context. */
  predicate FirstFailing(prechecks: seq<Precheck>, context: Context, i: int)
  {
    0 <= i < |prechecks| && prechecks[i](context).Some? &&
    forall j :: 0 <= j < i ==> prechecks[j](context).None?
  }

  /** What doPrechecks throws, as a function of the registry and the context:
      None when every rule passes, otherwise the first rule's error. */
  function Run(prechecks: seq<Precheck>, context: Context): (r: Option<string>)
    ensures r.None? <==> forall i :: 0 <= i < |prechecks| ==> prechecks[i](context).None?
    ensures r.Some? ==> exists i :: FirstFailing(prechecks, context, i) && r == prechecks[i](context)
    decreases |prechecks|
  {
    if prechecks == [] then None
    else if prechecks[0](context).Some? then prechecks[0](context)
    else
      var rest := Run(prechecks[1..], context);
      if rest.Some? then
        var k :| FirstFailing(prechecks[1..], context, k) && rest == prechecks[1..][k](context);
        assert FirstFailing(prechecks, context, k + 1);
        rest
      else
        rest
  }

  /** The error Run reports is that of the first failing rule, whichever
      rule that is; so at most one rule can be first to fail. */
  lemma RunReportsFirstFailure(prechecks: seq<Precheck>, context: Context, i: int)
    requires FirstFailing(prechecks, context, i)
    ensures Run(prechecks, context) == prechecks[i](context)
  {
  }

  /** Adding rules to the end of a registry never changes the outcome of a
      registry that already throws, and otherwise adds the new rules' outcome. */
  lemma {:induction false} RunAppend(first: seq<Precheck>, second: seq<Precheck>, context: Context)
    ensures Run(first + second, context) ==
            if Run(first, context).Some? then Run(first, context) else Run(second, context)
    decreases |first|
  {
    if first == [] {
      assert first + second == second;
    } else {
      assert (first + second)[1..] == first[1..] + second;
      assert (first + second)[0] == first[0];
      RunAppend(first[1..], second, context);
    }
  }

  /** One invocation of a rule, as the runner's log records it. */
  datatype Call = Call(index: nat, context: Context)

  /** doPrechecks: calls each rule in order with the same context; the first
      rule that throws ends the loop and its error reaches the caller as is.
      `calls` logs every rule invocation. */
  method DoPrechecks(prechecks: seq<Precheck>, context: Context)
    returns (thrown: Option<string>, ghost calls: seq<Call>)
    ensures thrown == Run(prechecks, context)
    ensures thrown.None? <==> forall i :: 0 <= i < |prechecks| ==> prechecks[i](context).None?
    ensures forall k :: 0 <= k < |calls| ==> calls[k] == Call(k, context)
    ensures thrown.None? ==> |calls| == |prechecks|
    ensures thrown.Some? ==>
              FirstFailing(prechecks, context, |calls| - 1) &&
              thrown == prechecks[|calls| - 1](context)
  {
    calls := [];
    var i := 0;
    while i < |prechecks|
      invariant 0 <= i <= |prechecks|
      invariant |calls| == i
      invariant forall k :: 0 <= k < i ==> calls[k] == Call(k, context)
      invariant forall j :: 0 <= j < i ==> prechecks[j](context).None?
    {
      var outcome := prechecks[i](context);
      calls := calls + [Call(i, context)];
      if outcome.Some? {
        RunReportsFirstFailure(prechecks, context, i);
        return outcome, calls;
      }
      i := i + 1;
    }
    thrown := None;
  }

  /** The registry twin.macro runs today holds precheckGroup alone: it throws
      the group message exactly on the bare "group" class string. */
  lemma GroupRegistry(logBadGood: Formatter, context: Context)
    ensures Run([GroupRule(logBadGood)], context) ==
            if context.classNameRaw == "group" then Some(GroupMessage(logBadGood)) else None
  {
  }
}
