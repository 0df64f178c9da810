/**
  AuthzLimiterDecorator: message types that may not be granted or executed through authz,
  however deeply the MsgExec messages are nested.
 */
module AuthzLimiter {

  const MAX_NESTED: nat := 50
  const EXEC_URL := "/cosmos.authz.v1beta1.MsgExec"
  const GRANT_URL := "/cosmos.authz.v1beta1.MsgGrant"

  /** A message; the payload of MsgExec and MsgGrant may fail to unpack. */
  datatype Msg =
    | Exec(unpacks: bool, inner: seq<Msg>)
    | Grant(unpacks: bool, authorization: string)
    | Other(url: string)

  datatype Verdict = Accepted | TooDeep | BadPayload | DisabledMsg(url: string)

  /** NewAuthzLimiterDecorator turns the configured list into a set. */
  method DisabledSet(urls: seq<string>) returns (disabled: set<string>)
    ensures forall u :: u in disabled <==> u in urls
  {
    disabled := {};
    for i := 0 to |urls|
      invariant forall u :: u in disabled <==> u in urls[..i]
    {
      assert urls[..i + 1] == urls[..i] + [urls[i]];
      disabled := disabled + {urls[i]};
    }
    assert urls[..|urls|] == urls;
  }

  /** CheckDisabledMsgs */
  function Check(disabled: set<string>, msgs: seq<Msg>, inside: bool, nested: nat): Verdict
    decreases msgs, 1
  {
    if nested >= MAX_NESTED then TooDeep else CheckEach(disabled, msgs, inside, nested)
  }

  /** The loop over one list of messages; the first error ends it. */
  function CheckEach(disabled: set<string>, msgs: seq<Msg>, inside: bool, nested: nat): Verdict
    decreases msgs, 0
  {
    if msgs == [] then Accepted
    else
      var v := CheckOne(disabled, msgs[0], inside, nested);
      if v == Accepted then CheckEach(disabled, msgs[1..], inside, nested) else v
  }

  function CheckOne(disabled: set<string>, m: Msg, inside: bool, nested: nat): Verdict
    decreases m, 2
  {
    match m
    case Exec(unpacks, inner) => if unpacks then Check(disabled, inner, true, nested + 1) else BadPayload
    case Grant(unpacks, url) =>
      if !unpacks then BadPayload else if url in disabled then DisabledMsg(url) else Accepted
    case Other(url) => if inside && url in disabled then DisabledMsg(url) else Accepted
  }

  // ---------- the rule, message by message ----------

  /** `path` leads from a list of messages through unpacked MsgExecs to one message. */
  predicate ValidPath(msgs: seq<Msg>, path: seq<nat>)
    decreases |path|
  {
    && path != [] && path[0] < |msgs|
    && (|path| == 1 || (msgs[path[0]].Exec? && msgs[path[0]].unpacks && ValidPath(msgs[path[0]].inner, path[1..])))
  }

  function At(msgs: seq<Msg>, path: seq<nat>): Msg
    requires ValidPath(msgs, path)
    decreases |path|
  {
    if |path| == 1 then msgs[path[0]] else At(msgs[path[0]].inner, path[1..])
  }

  /** What is demanded of a single message in a list that is checked at level `nested`. */
  predicate Allowed(disabled: set<string>, m: Msg, inside: bool, nested: nat) {
    match m
    case Exec(unpacks, _) => unpacks && nested + 1 < MAX_NESTED
    case Grant(unpacks, url) => unpacks && url !in disabled
    case Other(url) => inside ==> url !in disabled
  }

  ghost predicate AllAllowed(disabled: set<string>, msgs: seq<Msg>, inside: bool, nested: nat) {
    forall path :: ValidPath(msgs, path) ==>
      Allowed(disabled, At(msgs, path), inside || |path| > 1, nested + |path| - 1)
  }

  lemma {:induction false} CheckEachAt(disabled: set<string>, msgs: seq<Msg>, inside: bool, nested: nat, k: nat)
    requires CheckEach(disabled, msgs, inside, nested) == Accepted && k < |msgs|
    ensures CheckOne(disabled, msgs[k], inside, nested) == Accepted
    decreases k
  {
    if k > 0 { CheckEachAt(disabled, msgs[1..], inside, nested, k - 1); }
  }

  lemma {:induction false} AcceptedAt(disabled: set<string>, msgs: seq<Msg>, inside: bool, nested: nat, path: seq<nat>)
    requires Check(disabled, msgs, inside, nested) == Accepted && ValidPath(msgs, path)
    ensures Allowed(disabled, At(msgs, path), inside || |path| > 1, nested + |path| - 1)
    decreases |path|
  {
    CheckEachAt(disabled, msgs, inside, nested, path[0]);
    if |path| > 1 {
      AcceptedAt(disabled, msgs[path[0]].inner, true, nested + 1, path[1..]);
    }
  }

  lemma {:induction false} FirstRejected(disabled: set<string>, msgs: seq<Msg>, inside: bool, nested: nat)
    returns (k: nat)
    requires CheckEach(disabled, msgs, inside, nested) != Accepted
    ensures k < |msgs| && CheckOne(disabled, msgs[k], inside, nested) != Accepted
    decreases |msgs|
  {
    if CheckOne(disabled, msgs[0], inside, nested) != Accepted {
      k := 0;
    } else {
      var j := FirstRejected(disabled, msgs[1..], inside, nested);
      k := j + 1;
    }
  }

  /** A rejection can be traced to one message that is not allowed. */
  lemma {:induction false} RejectedAt(disabled: set<string>, msgs: seq<Msg>, inside: bool, nested: nat)
    returns (path: seq<nat>)
    requires nested < MAX_NESTED && Check(disabled, msgs, inside, nested) != Accepted
    ensures ValidPath(msgs, path)
    ensures !Allowed(disabled, At(msgs, path), inside || |path| > 1, nested + |path| - 1)
    decreases msgs
  {
    var k := FirstRejected(disabled, msgs, inside, nested);
    path := [k];
    var m := msgs[k];
    if m.Exec? && m.unpacks && nested + 1 < MAX_NESTED {
      var rest := RejectedAt(disabled, m.inner, true, nested + 1);
      path := [k] + rest;
      assert path[1..] == rest;
    }
  }

  /**
    A forest of messages is accepted exactly when every payload unpacks, no exec is nested too
    deeply, no grant at any depth names a disabled type, and no disabled message is executed.
   */
  lemma AcceptedIff(disabled: set<string>, msgs: seq<Msg>, inside: bool, nested: nat)
    ensures Check(disabled, msgs, inside, nested) == Accepted
            <==> nested < MAX_NESTED && AllAllowed(disabled, msgs, inside, nested)
  {
    if Check(disabled, msgs, inside, nested) == Accepted {
      forall path | ValidPath(msgs, path)
        ensures Allowed(disabled, At(msgs, path), inside || |path| > 1, nested + |path| - 1)
      {
        AcceptedAt(disabled, msgs, inside, nested, path);
      }
    } else if nested < MAX_NESTED {
      var path := RejectedAt(disabled, msgs, inside, nested);
    }
  }

  /** The wasm messenger checks with the inner flag set, which is the stricter check. */
  lemma InnerCheckIsStricter(disabled: set<string>, msgs: seq<Msg>, nested: nat)
    requires Check(disabled, msgs, true, nested) == Accepted
    ensures Check(disabled, msgs, false, nested) == Accepted
  {
    AcceptedIff(disabled, msgs, true, nested);
    AcceptedIff(disabled, msgs, false, nested);
    forall path | ValidPath(msgs, path)
      ensures Allowed(disabled, At(msgs, path), false || |path| > 1, nested + |path| - 1)
    {
      assert Allowed(disabled, At(msgs, path), true || |path| > 1, nested + |path| - 1);
    }
  }

  /** `n` MsgExecs, each inside the one before. */
  function NestedExecs(n: nat): seq<Msg> {
    if n == 0 then [] else [Exec(true, NestedExecs(n - 1))]
  }

  /** Forty-nine nested MsgExecs are accepted, fifty are not. */
  lemma {:induction false} NestingLimit(disabled: set<string>, n: nat, inside: bool, nested: nat)
    ensures Check(disabled, NestedExecs(n), inside, nested) == Accepted <==> nested + n < 50
    decreases n
  {
    if n > 0 && nested < 50 {
      NestingLimit(disabled, n - 1, true, nested + 1);
      SingleMessage(disabled, Exec(true, NestedExecs(n - 1)), inside, nested);
    }
  }

  // ---------- two readings that do not hold ----------

  /**
    The limit is on depth, not on the total number of messages: a single MsgExec may carry
    any number of them.
   */
  lemma {:induction false} WideListAccepted(disabled: set<string>, url: string, n: nat, inside: bool, nested: nat)
    requires url !in disabled
    ensures CheckEach(disabled, seq(n, _ => Other(url)), inside, nested) == Accepted
    decreases n
  {
    var msgs := seq(n, _ => Other(url));
    if n > 0 {
      WideListAccepted(disabled, url, n - 1, inside, nested);
      assert msgs[1..] == seq(n - 1, _ => Other(url));
    }
  }

  lemma SingleMessage(disabled: set<string>, m: Msg, inside: bool, nested: nat)
    requires nested < MAX_NESTED
    ensures Check(disabled, [m], inside, nested) == CheckOne(disabled, m, inside, nested)
  {
    assert CheckEach(disabled, [m][1..], inside, nested) == Accepted;
  }

  lemma WideExecAccepted(disabled: set<string>, url: string, n: nat)
    requires url !in disabled
    ensures Check(disabled, [Exec(true, seq(n, _ => Other(url)))], false, 0) == Accepted
  {
    var inner := seq(n, _ => Other(url));
    WideListAccepted(disabled, url, n, true, 1);
    assert Check(disabled, inner, true, 1) == Accepted;
    SingleMessage(disabled, Exec(true, inner), false, 0);
  }

  function TypeUrl(m: Msg): string {
    match m case Exec(_, _) => EXEC_URL case Grant(_, _) => GRANT_URL case Other(url) => url
  }

  /** No message of a disabled type, MsgExec and MsgGrant included, is executed inside an accepted MsgExec. */
  ghost predicate NoDisabledTypeInside(disabled: set<string>) {
    forall msgs, path {:trigger Check(disabled, msgs, false, 0), ValidPath(msgs, path)} ::
      Check(disabled, msgs, false, 0) == Accepted && ValidPath(msgs, path) && |path| > 1 ==>
        TypeUrl(At(msgs, path)) !in disabled
  }

  lemma NestedAccepted(disabled: set<string>, m: Msg)
    requires Check(disabled, [m], true, 1) == Accepted
    ensures Check(disabled, [Exec(true, [m])], false, 0) == Accepted
    ensures ValidPath([Exec(true, [m])], [0, 0]) && At([Exec(true, [m])], [0, 0]) == m
  {
    var msgs := [Exec(true, [m])];
    SingleMessage(disabled, msgs[0], false, 0);
    assert [0, 0][1..] == [0];
  }

  /** The type of MsgExec and MsgGrant themselves is never looked up, so disabling these two has no effect. */
  lemma NoDisabledTypeInsideIff(disabled: set<string>)
    ensures NoDisabledTypeInside(disabled) <==> EXEC_URL !in disabled && GRANT_URL !in disabled
  {
    if EXEC_URL in disabled {
      var m := Exec(true, []);
      assert CheckOne(disabled, m, true, 1) == Check(disabled, [], true, 2) == Accepted;
      SingleMessage(disabled, m, true, 1);
      NestedAccepted(disabled, m);
      assert TypeUrl(At([Exec(true, [m])], [0, 0])) in disabled;
    } else if GRANT_URL in disabled {
      var url := FreshUrl(disabled);
      var m := Grant(true, url);
      assert CheckOne(disabled, m, true, 1) == Accepted;
      SingleMessage(disabled, m, true, 1);
      NestedAccepted(disabled, m);
      assert TypeUrl(At([Exec(true, [m])], [0, 0])) in disabled;
    } else {
      forall msgs, path | Check(disabled, msgs, false, 0) == Accepted && ValidPath(msgs, path) && |path| > 1
        ensures TypeUrl(At(msgs, path)) !in disabled
      {
        AcceptedAt(disabled, msgs, false, 0, path);
      }
    }
  }

  /** Some url is not disabled: the set is finite. */
  lemma FreshUrl(disabled: set<string>) returns (url: string)
    ensures url !in disabled
  {
    var n := LongerThanAll(disabled);
    url := seq(n, _ => 'x');
  }

  lemma {:induction false} LongerThanAll(urls: set<string>) returns (n: nat)
    ensures forall u :: u in urls ==> |u| < n
    decreases |urls|
  {
    if urls == {} {
      n := 0;
    } else {
      var u :| u in urls;
      var m := LongerThanAll(urls - {u});
      n := if m > |u| then m else |u| + 1;
      forall v | v in urls ensures |v| < n { if v != u { assert v in urls - {u}; } }
    }
  }
}
