/**
 * The enable/disable bookkeeping of action_state_helper.py.  An action
 * carries a tooltip and an enabled flag; a helper keeps the action's
 * original tooltip and a list of tests; the class-level list `all` of the
 * source is the `Registry` object every helper is added to.  A test looks
 * at the plugin's state (the open project, the active layers) and answers
 * whether the action may be enabled, with a message when it may not; that
 * state is the parameter `env`.
 */
module ActionState {
  import opened Wrappers

  /** A test: may the action be enabled in state `env`, and if not, why. */
  type Test<!E> = E -> (bool, string)

  /** The Qt action the helper drives: its tooltip and its enabled flag. */
  class Action {
    var toolTip: string
    var enabled: bool

    constructor (toolTip: string)
      ensures this.toolTip == toolTip && !enabled
    {
      this.toolTip := toolTip;
      enabled := false;
    }
  }

  /**
   * The position of the first test that fails in `env`, or `None` when
   * every test passes.
   */
  function FirstFailing<E>(tests: seq<Test<E>>, env: E): (r: Option<nat>)
    ensures r.Some? ==> r.value < |tests| && !tests[r.value](env).0
    ensures r.Some? ==> forall i :: 0 <= i < r.value ==> tests[i](env).0
    ensures r.None? <==> forall i :: 0 <= i < |tests| ==> tests[i](env).0
  {
    if |tests| == 0 then None
    else if !tests[0](env).0 then Some(0)
    else
      match FirstFailing(tests[1..], env)
      case None => None
      case Some(k) => Some(k + 1)
  }

  /**
   * A test added at the end changes nothing when an earlier test already
   * fails; otherwise it decides alone.
   */
  lemma {:induction false} FirstFailingAppend<E>(tests: seq<Test<E>>, t: Test<E>, env: E)
    ensures FirstFailing(tests + [t], env) ==
      if FirstFailing(tests, env).Some? then FirstFailing(tests, env)
      else if !t(env).0 then Some(|tests|)
      else None
  {
    if |tests| > 0 {
      FirstFailingAppend(tests[1..], t, env);
      assert (tests + [t])[1..] == tests[1..] + [t];
    }
  }

  class ActionStateHelper<E> {
    const action: Action
    /** The tooltip the action had when the helper was made. */
    const tooltip: string
    var enabledTest: seq<Test<E>>

    /** The tooltip and enabled flag `update_state` gives the action in state `env`. */
    ghost function Outcome(env: E): (string, bool)
      reads this
    {
      match FirstFailing(enabledTest, env)
      case Some(k) => (enabledTest[k](env).1, false)
      case None => (tooltip, true)
    }

    /** The helper keeps the action's tooltip, starts with no test and joins the registry. */
    constructor (action: Action, registry: Registry<E>)
      modifies registry
      ensures this.action == action && tooltip == action.toolTip && enabledTest == []
      ensures registry.all == old(registry.all) + [this]
    {
      this.action := action;
      tooltip := action.toolTip;
      enabledTest := [];
      new;
      registry.all := registry.all + [this];
    }

    /** `add_is_enabled_test`: the test goes last, and the helper itself is returned for chaining. */
    method AddIsEnabledTest(l: Test<E>) returns (self: ActionStateHelper<E>)
      modifies this
      ensures enabledTest == old(enabledTest) + [l]
      ensures self == this
    {
      enabledTest := enabledTest + [l];
      self := this;
    }

    /**
     * `update_state`: the first failing test's message becomes the
     * tooltip and the action is disabled, no later test is consulted;
     * when every test passes, the original tooltip comes back and the
     * action is enabled.
     */
    method UpdateState(env: E)
      modifies action
      ensures (action.toolTip, action.enabled) == Outcome(env)
    {
      for i := 0 to |enabledTest|
        invariant forall j :: 0 <= j < i ==> enabledTest[j](env).0
        invariant action.toolTip == old(action.toolTip) && action.enabled == old(action.enabled)
      {
        var test := enabledTest[i];
        var (enabled, tooltip) := test(env);
        if !enabled {
          action.toolTip := tooltip;
          action.enabled := false;
          return;
        }
      }
      action.toolTip := tooltip;
      action.enabled := true;
    }
  }

  /** The class-level list of every helper made. */
  class Registry<E> {
    var all: seq<ActionStateHelper<E>>

    constructor ()
      ensures all == []
    {
      all := [];
    }

    /** The actions of the registered helpers. */
    ghost function Actions(): set<Action>
      reads this
    {
      set h | h in all :: h.action
    }

    /**
     * `update_all`: every helper updates its action, in registration
     * order.  An action driven by several helpers ends in the state the
     * last of them gives it; every helper whose action no later helper
     * shares sees its own outcome.
     */
    method UpdateAll(env: E)
      modifies Actions()
      ensures all == old(all)
      ensures forall i :: 0 <= i < |all| && (forall j :: i < j < |all| ==> all[j].action != all[i].action) ==>
        (all[i].action.toolTip, all[i].action.enabled) == all[i].Outcome(env)
    {
      for p := 0 to |all|
        invariant forall i :: 0 <= i < p && (forall j :: i < j < p ==> all[j].action != all[i].action) ==>
          (all[i].action.toolTip, all[i].action.enabled) == all[i].Outcome(env)
      {
        var h := all[p];
        h.UpdateState(env);
      }
    }

    /** `remove_all`: the registry is emptied. */
    method RemoveAll()
      modifies this
      ensures all == []
    {
      all := [];
    }
  }
}
