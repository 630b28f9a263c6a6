/** The persistent log of disabled adapters as a step machine (setnet.c): every registry access
    and every command is an event, a crash cuts the events anywhere, and the log must cover the
    adapters that are still down. */
module DisableLog {
  import opened Text
  import opened Names

  const SAVE_BUF := 4096

  datatype Event =
    | ReadFailed                                      // the registry value could not be read
    | Stored(text: string)                            // the registry value was written
    | StoreFailed                                     // ... or could not be
    | Ran(name: string, enable: bool, rc: int)        // the command that enables or disables

  /** The names in the registry value; none when there is no value. */
  function Listed(reg: Option<string>): seq<string> {
    match reg case None => [] case Some(t) => Tokens(t, ':')
  }

  /** `save_adapter_disabled`: the value to store, or None when there is nothing to do. */
  function Update(names: seq<string>, name: string, enable: bool): Option<string> {
    if enable == Has(names, name) then
      Some(Printed(if enable then RemoveName(names, name) else names + [name], ':', SAVE_BUF))
    else None
  }

  /** One call of `enable_adapter_name`, with the environment's answers. */
  datatype Op = Op(name: string, enable: bool, rc: int, readFailed: bool, storeOk: bool)

  function SaveTrace(reg: Option<string>, op: Op): seq<Event> {
    (if op.readFailed then [ReadFailed] else []) +
    match Update(if op.readFailed then [] else Listed(reg), op.name, op.enable)
    case None => []
    case Some(t) => [if op.storeOk then Stored(t) else StoreFailed]
  }

  /** A disable is saved first; an enable is erased only after it succeeded. */
  function OpTrace(reg: Option<string>, op: Op): seq<Event> {
    if !op.enable then SaveTrace(reg, op) + [Ran(op.name, false, op.rc)]
    else [Ran(op.name, true, op.rc)] + if op.rc == 0 then SaveTrace(reg, op) else []
  }

  function RegAfter(reg: Option<string>, es: seq<Event>): Option<string>
    decreases |es|
  {
    if es == [] then reg
    else RegAfter(if es[0].Stored? then Some(es[0].text) else reg, es[1..])
  }

  function OpsTrace(reg: Option<string>, ops: seq<Op>): seq<Event>
    decreases |ops|
  {
    if ops == [] then [] else
      var es := OpTrace(reg, ops[0]);
      es + OpsTrace(RegAfter(reg, es), ops[1..])
  }

  /** What survives a crash: the registry value, and the adapters (up to case) that a disable
      command was run for and no enable command has succeeded for since. */
  datatype State = State(reg: Option<string>, down: set<string>)

  function Step(s: State, e: Event): State {
    match e
    case Stored(t) => s.(reg := Some(t))
    case Ran(n, enable, rc) =>
      if !enable then s.(down := s.down + {Fold(n)})
      else if rc == 0 then s.(down := s.down - {Fold(n)})
      else s
    case _ => s
  }

  function Run(s: State, es: seq<Event>): State
    decreases |es|
  {
    if es == [] then s else Run(Step(s, es[0]), es[1..])
  }

  predicate Logged(reg: Option<string>, f: string) {
    exists n <- Listed(reg) :: Fold(n) == f
  }

  /** Every adapter that is down is in the log. */
  predicate Covered(s: State) {
    forall f <- s.down :: Logged(s.reg, f)
  }

  predicate FitsLog(names: seq<string>) {
    |Written(names, ':')| < SAVE_BUF
  }

  /** The log itself is sound: no repeats, and small enough to be written back. */
  predicate Sound(reg: Option<string>) {
    NoRepeat(Listed(reg)) && FitsLog(Listed(reg))
  }

  lemma {:induction false} RunAppend(s: State, a: seq<Event>, b: seq<Event>)
    ensures Run(s, a + b) == Run(Run(s, a), b)
    decreases |a|
  {
    if a == [] {
      assert a + b == b;
    } else {
      TailAppend(a, b);
      RunAppend(Step(s, a[0]), a[1..], b);
    }
  }

  /** The first `k` events of two parts. */
  lemma RunPrefix(s: State, first: seq<Event>, rest: seq<Event>, k: nat)
    requires k <= |first + rest|
    ensures k <= |first| ==> Run(s, (first + rest)[..k]) == Run(s, first[..k])
    ensures k > |first| ==> Run(s, (first + rest)[..k]) == Run(Run(s, first), rest[..k - |first|])
  {
    if k <= |first| {
      TakeFront(first, rest, k);
    } else {
      TakeBack(first, rest, k);
      RunAppend(s, first, rest[..k - |first|]);
    }
  }

  lemma {:induction false} RunReg(s: State, es: seq<Event>)
    ensures Run(s, es).reg == RegAfter(s.reg, es)
    decreases |es|
  {
    if es != [] {
      RunReg(Step(s, es[0]), es[1..]);
    }
  }

  /** What one save leaves in the registry. */
  lemma RegAfterSave(reg: Option<string>, op: Op)
    ensures RegAfter(reg, SaveTrace(reg, op)) ==
      var t := Update(if op.readFailed then [] else Listed(reg), op.name, op.enable);
      if t.Some? && op.storeOk then t else reg
  {
    var t := Update(if op.readFailed then [] else Listed(reg), op.name, op.enable);
    var pre := if op.readFailed then [ReadFailed] else [];
    assert pre != [] ==> pre[1..] == [];
    if t.Some? {
      var e := if op.storeOk then Stored(t.value) else StoreFailed;
      assert SaveTrace(reg, op) == pre + [e] && [e][1..] == [];
      RegAppend(reg, pre, [e]);
    } else {
      assert SaveTrace(reg, op) == pre;
    }
  }

  lemma OpTraceParts(reg: Option<string>, op: Op)
    ensures RegAfter(reg, OpTrace(reg, op)) ==
      if op.enable && op.rc != 0 then reg else RegAfter(reg, SaveTrace(reg, op))
  {
    var ran := [Ran(op.name, op.enable, op.rc)];
    assert ran[1..] == [];
    if op.enable {
      RegAppend(reg, ran, if op.rc == 0 then SaveTrace(reg, op) else []);
    } else {
      RegAppend(reg, SaveTrace(reg, op), ran);
    }
  }

  lemma {:induction false} OpsTraceAppend(reg: Option<string>, ops: seq<Op>, op: Op)
    ensures var es := OpsTrace(reg, ops);
      && OpsTrace(reg, ops + [op]) == es + OpTrace(RegAfter(reg, es), op)
      && RegAfter(reg, OpsTrace(reg, ops + [op])) == RegAfter(RegAfter(reg, es), OpTrace(RegAfter(reg, es), op))
    decreases |ops|
  {
    var es := OpsTrace(reg, ops);
    if ops == [] {
      assert [op][1..] == [] && ops + [op] == [op];
      assert OpsTrace(reg, [op]) == OpTrace(reg, op);
    } else {
      var first := OpTrace(reg, ops[0]);
      var now := RegAfter(reg, first);
      TailAppend(ops, [op]);
      OpsTraceAppend(now, ops[1..], op);
      RegAppend(reg, first, OpsTrace(now, ops[1..]));
      Associative(first, OpsTrace(now, ops[1..]), OpTrace(RegAfter(reg, es), op));
    }
    RegAppend(reg, es, OpTrace(RegAfter(reg, es), op));
  }

  // ---- one save -----------------------------------------------------------

  lemma {:induction false} NoRepeatAppend(names: seq<string>, name: string)
    requires NoRepeat(names) && !Has(names, name)
    ensures NoRepeat(names + [name])
  {
    if names != [] {
      NoRepeatAppend(names[1..], name);
      TailAppend(names, [name]);
      HasAppend(names[1..], [name], names[0]);
      assert [name][1..] == [];
    }
  }

  lemma {:induction false} HasAppend(a: seq<string>, b: seq<string>, name: string)
    ensures Has(a + b, name) <==> Has(a, name) || Has(b, name)
  {
    if a == [] {
      assert a + b == b;
    } else {
      TailAppend(a, b);
      HasAppend(a[1..], b, name);
    }
  }

  lemma {:induction false} RemoveKeeps(names: seq<string>, name: string)
    requires NoRepeat(names)
    ensures NoRepeat(RemoveName(names, name))
    ensures |Written(RemoveName(names, name), ':')| <= |Written(names, ':')|
    ensures forall x :: Has(RemoveName(names, name), x) <==> Has(names, x) && !SameFold(name, x)
    ensures forall x :: x in RemoveName(names, name) ==> x in names
  {
    if names != [] {
      RemoveKeeps(names[1..], name);
      if SameFold(names[0], name) {
        forall x | SameFold(name, x)
          ensures !Has(names[1..], x)
        {
          HasFold(names[1..], names[0], x);
        }
      }
    }
  }

  lemma {:induction false} HasFold(names: seq<string>, a: string, b: string)
    requires SameFold(a, b)
    ensures Has(names, a) <==> Has(names, b)
  {
    if names != [] {
      HasFold(names[1..], a, b);
    }
  }

  lemma LoggedIsHas(reg: Option<string>, n: string)
    ensures Logged(reg, Fold(n)) <==> Has(Listed(reg), n)
  {
    HasMeans(Listed(reg), n);
  }

  lemma ListedGood(reg: Option<string>)
    ensures GoodNames(Listed(reg), ':')
  {
    if reg.Some? {
      TokensGood(reg.value, ':');
    }
  }

  /** Writing a list of good names and reading it back: the prefix that fits. */
  lemma StoredList(names: seq<string>)
    requires GoodNames(names, ':')
    ensures var reg := Some(Printed(names, ':', SAVE_BUF));
      && Listed(reg) == names[..FitCount(names, 0, SAVE_BUF)]
      && (FitsLog(names) ==> Listed(reg) == names)
  {
    PrintSplit(names, ':', SAVE_BUF);
  }

  /** The registry can be read and written, the name is non-empty and free of ':', and the list with
      a new name still fits. */
  predicate Smooth(reg: Option<string>, op: Op) {
    && GoodName(op.name, ':') && !op.readFailed && op.storeOk
    && (!op.enable && !Has(Listed(reg), op.name) ==> FitsLog(Listed(reg) + [op.name]))
  }

  lemma SaveSound(reg: Option<string>, op: Op)
    requires Sound(reg) && Smooth(reg, op)
    ensures var now := RegAfter(reg, SaveTrace(reg, op));
      && Sound(now)
      && Listed(now) == (
        if op.enable then RemoveName(Listed(reg), op.name)
        else if Has(Listed(reg), op.name) then Listed(reg) else Listed(reg) + [op.name])
  {
    var names := Listed(reg);
    ListedGood(reg);
    RemoveKeeps(names, op.name);
    if op.enable == Has(names, op.name) {
      var next := if op.enable then RemoveName(names, op.name) else names + [op.name];
      assert GoodNames(next, ':');
      StoredList(next);
      assert SaveTrace(reg, op) == [Stored(Printed(next, ':', SAVE_BUF))];
      assert SaveTrace(reg, op)[1..] == [];
      if !op.enable {
        NoRepeatAppend(names, op.name);
      }
    } else if op.enable {
      RemoveNothing(names, op.name);
    }
  }

  lemma {:induction false} RemoveNothing(names: seq<string>, name: string)
    requires !Has(names, name)
    ensures RemoveName(names, name) == names
  {
    if names != [] {
      RemoveNothing(names[1..], name);
    }
  }

  /** After a save the log names the old adapters and the disabled one, or the old ones but the
      enabled one. */
  lemma SaveLogs(reg: Option<string>, op: Op, n: string)
    requires Sound(reg) && Smooth(reg, op)
    ensures var now := RegAfter(reg, SaveTrace(reg, op));
      Has(Listed(now), n) <==>
        if op.enable then Has(Listed(reg), n) && !SameFold(op.name, n)
        else Has(Listed(reg), n) || SameFold(op.name, n)
  {
    SaveSound(reg, op);
    RemoveKeeps(Listed(reg), op.name);
    HasAppend(Listed(reg), [op.name], n);
    assert [op.name][1..] == [];
    if SameFold(op.name, n) {
      HasFold(Listed(reg), op.name, n);
    }
  }

  /** Covered and sound. */
  predicate Safe(s: State) {
    Covered(s) && Sound(s.reg)
  }

  // ---- a disable ----------------------------------------------------------

  lemma RunOne(s: State, e: Event)
    ensures Run(s, [e]) == Step(s, e)
  {
    assert [e][1..] == [];
  }

  /** The registry changes with the last event of a save only. */
  lemma SaveCut(s: State, op: Op, k: nat)
    requires k <= |SaveTrace(s.reg, op)|
    ensures Run(s, SaveTrace(s.reg, op)[..k]) ==
      if k < |SaveTrace(s.reg, op)| then s else s.(reg := RegAfter(s.reg, SaveTrace(s.reg, op)))
  {
    var es := SaveTrace(s.reg, op);
    if k == |es| {
      assert es[..k] == es;
      RunReg(s, es);
      SaveDown(s, es);
    } else if k == 1 {
      assert es[..1] == [ReadFailed];
      RunOne(s, ReadFailed);
    } else {
      assert es[..0] == [];
    }
  }

  lemma {:induction false} SaveDown(s: State, es: seq<Event>)
    requires forall e <- es :: !e.Ran?
    ensures Run(s, es).down == s.down
    decreases |es|
  {
    if es != [] {
      assert es[0] in es && forall e <- es[1..] :: e in es;
      SaveDown(Step(s, es[0]), es[1..]);
    }
  }

  /** The log after a disable. */
  function DisableList(reg: Option<string>, op: Op): seq<string> {
    var names := if op.readFailed then [] else Listed(reg);
    if Has(names, op.name) || !op.storeOk then Listed(reg)
    else (names + [op.name])[..FitCount(names + [op.name], 0, SAVE_BUF)]
  }

  lemma DisableEnds(s: State, op: Op)
    requires !op.enable && GoodName(op.name, ':')
    ensures var end := Run(s, OpTrace(s.reg, op));
      end.down == s.down + {Fold(op.name)} && Listed(end.reg) == DisableList(s.reg, op)
  {
    var es, save, ran := OpTrace(s.reg, op), SaveTrace(s.reg, op), Ran(op.name, false, op.rc);
    RunAppend(s, save, [ran]);
    RunOne(Run(s, save), ran);
    RunReg(s, save);
    ListedGood(s.reg);
    var names := if op.readFailed then [] else Listed(s.reg);
    var pre := if op.readFailed then [ReadFailed] else [];
    if !Has(names, op.name) {
      StoredList(names + [op.name]);
      var e := if op.storeOk then Stored(Printed(names + [op.name], ':', SAVE_BUF)) else StoreFailed;
      assert save == pre + [e];
      RunAppend(s, pre, [e]);
      RunOne(Run(s, pre), e);
    } else {
      assert save == pre;
    }
    if op.readFailed {
      RunOne(s, ReadFailed);
    }
  }

  lemma SameLog(s: State, end: State, f: string)
    requires Covered(s) && Listed(end.reg) == Listed(s.reg) && end.down == s.down + {f}
    ensures Covered(end) <==> Logged(s.reg, f)
  {
    assert forall g :: Logged(s.reg, g) == Logged(end.reg, g);
  }

  lemma {:induction false} PrefixHas(names: seq<string>, k: nat, name: string)
    requires k <= |names| && !Has(names, name)
    ensures !Has(names[..k], name)
  {
    if k > 0 {
      PrefixHas(names[1..], k - 1, name);
      assert names[..k][1..] == names[1..][..k - 1];
    }
  }

  lemma {:induction false} NoRepeatPrefix(names: seq<string>, k: nat)
    requires NoRepeat(names) && k <= |names|
    ensures NoRepeat(names[..k])
  {
    if k > 0 {
      NoRepeatPrefix(names[1..], k - 1);
      assert names[..k][1..] == names[1..][..k - 1];
      PrefixHas(names[1..], k - 1, names[0]);
    }
  }

  lemma {:induction false} WrittenPrefix(names: seq<string>, k: nat)
    requires k <= |names|
    ensures |Written(names[..k], ':')| <= |Written(names, ':')|
  {
    if k > 0 {
      WrittenPrefix(names[1..], k - 1);
      assert names[..k][1..] == names[1..][..k - 1];
    }
  }

  /** Appending to a list that fits cuts off at most the new name. */
  lemma OldNamesFit(names: seq<string>, name: string)
    requires FitsLog(names)
    ensures FitCount(names + [name], 0, SAVE_BUF) >= |names|
  {
    hide Written, FitCount;
    var all := names + [name];
    var k := FitCount(all, 0, SAVE_BUF);
    FitExact(all, ':', 0, SAVE_BUF);
    if k < |names| {
      assert all[..k + 1] == names[..k + 1];
      WrittenPrefix(names, k + 1);
    }
  }

  /** However the registry answers, the save of a disable leaves a sound log. */
  lemma DisableSound(s: State, op: Op)
    requires Sound(s.reg) && !op.enable && GoodName(op.name, ':')
    ensures Sound(RegAfter(s.reg, SaveTrace(s.reg, op)))
    ensures Listed(RegAfter(s.reg, SaveTrace(s.reg, op))) == DisableList(s.reg, op)
  {
    var names := if op.readFailed then [] else Listed(s.reg);
    var all := names + [op.name];
    DisableEnds(s, op);
    RunReg(s, OpTrace(s.reg, op));
    OpTraceParts(s.reg, op);
    if !Has(names, op.name) && op.storeOk {
      var k := FitCount(all, 0, SAVE_BUF);
      FitExact(all, ':', 0, SAVE_BUF);
      NoRepeatAppend(names, op.name);
      NoRepeatPrefix(all, k);
    }
  }

  /** Exactly when a disable keeps every adapter covered. A failed read makes the tool write a list
      of the new name alone, so everything that was down before is forgotten; a failed write or a
      full list loses the new name. */
  predicate DisableKeeps(s: State, op: Op) {
    if !op.readFailed then
      Has(Listed(s.reg), op.name) || (op.storeOk && FitsLog(Listed(s.reg) + [op.name]))
    else if op.storeOk then
      FitsLog([op.name]) && s.down <= {Fold(op.name)}
    else
      Has(Listed(s.reg), op.name)
  }

  /** The condition is exact: a completed disable leaves every adapter covered if and only if it holds. */
  lemma DisableExact(s: State, op: Op)
    requires Safe(s) && !op.enable && GoodName(op.name, ':')
    ensures Covered(Run(s, OpTrace(s.reg, op))) <==> DisableKeeps(s, op)
  {
    var end, f := Run(s, OpTrace(s.reg, op)), Fold(op.name);
    DisableEnds(s, op);
    var names := if op.readFailed then [] else Listed(s.reg);
    var k := FitCount(names + [op.name], 0, SAVE_BUF);
    FitExact(names + [op.name], ':', 0, SAVE_BUF);
    LoggedIsHas(end.reg, op.name);
    if Has(names, op.name) || !op.storeOk {
      LoggedIsHas(s.reg, op.name);
      SameLog(s, end, f);
    } else if k <= |names| {
      PrefixHas(names, k, op.name);
      assert (names + [op.name])[..k] == names[..k];
    } else {
      assert (names + [op.name])[..k] == names + [op.name];
      HasAppend(names, [op.name], op.name);
      assert [op.name][1..] == [];
      if !op.readFailed {
        forall g | g in s.down
          ensures Logged(end.reg, g)
        {
          var n :| n in Listed(s.reg) && Fold(n) == g;
          assert n in Listed(end.reg);
        }
      } else {
        assert Listed(end.reg) == [op.name];
      }
    }
  }

  /** Exactly when the save of a disable, before the command, keeps every adapter covered. */
  predicate StoreKeeps(s: State, op: Op) {
    op.readFailed && op.storeOk ==> s.down <= if FitsLog([op.name]) then {Fold(op.name)} else {}
  }

  /** Unless the old list could not be read, the new one starts with it. */
  lemma OldNamesStay(reg: Option<string>, op: Op)
    requires Sound(reg) && !(op.readFailed && op.storeOk)
    ensures Listed(reg) <= DisableList(reg, op)
  {
    var names := Listed(reg);
    if !op.readFailed && !Has(names, op.name) && op.storeOk {
      OldNamesFit(names, op.name);
      var k := FitCount(names + [op.name], 0, SAVE_BUF);
      assert (names + [op.name])[..k][..|names|] == names;
    }
  }

  /** The condition is exact for a disable that is cut off before its command. */
  lemma StoreExact(s: State, op: Op)
    requires Safe(s) && !op.enable && GoodName(op.name, ':')
    ensures Covered(s.(reg := RegAfter(s.reg, SaveTrace(s.reg, op)))) <==> StoreKeeps(s, op)
  {
    var now := s.(reg := RegAfter(s.reg, SaveTrace(s.reg, op)));
    DisableSound(s, op);
    if op.readFailed && op.storeOk {
      FitExact([op.name], ':', 0, SAVE_BUF);
      assert [] + [op.name] == [op.name] && [op.name][..1] == [op.name] && [op.name][..0] == [];
      assert Listed(now.reg) == if FitsLog([op.name]) then [op.name] else [];
      assert FitsLog([op.name]) ==> op.name in Listed(now.reg);
    } else {
      OldNamesStay(s.reg, op);
      forall g | g in s.down
        ensures Logged(now.reg, g)
      {
        var n :| n in Listed(s.reg) && Fold(n) == g;
        assert n in Listed(now.reg);
      }
    }
  }

  lemma DisableKeepsStore(s: State, op: Op)
    requires DisableKeeps(s, op)
    ensures StoreKeeps(s, op)
  {
  }

  // ---- operations cut off by a crash --------------------------------------

  /** The first `n` events of an operation do no harm: the name is non-empty and free of ':', the store
      of a disable keeps every adapter covered, and so does its command. Nothing else is asked of the
      registry: an enable may find it failing in any way, and what a crash prevents does not matter. */
  predicate OpOk(s: State, op: Op, n: nat) {
    n == 0 || (GoodName(op.name, ':') && (op.enable || (
      && (n == |SaveTrace(s.reg, op)| ==> StoreKeeps(s, op))
      && (n > |SaveTrace(s.reg, op)| ==> DisableKeeps(s, op)))))
  }

  /** The state in which the first `k` events of a disable leave the system. */
  lemma DisableCut(s: State, op: Op, k: nat)
    requires !op.enable && k <= |OpTrace(s.reg, op)|
    ensures var save := SaveTrace(s.reg, op);
      Run(s, OpTrace(s.reg, op)[..k]) ==
        if k < |save| then s
        else if k == |save| then s.(reg := RegAfter(s.reg, save))
        else Run(s, OpTrace(s.reg, op))
  {
    var es, save, ran := OpTrace(s.reg, op), SaveTrace(s.reg, op), Ran(op.name, false, op.rc);
    if k <= |save| {
      RunPrefix(s, save, [ran], k);
      SaveCut(s, op, k);
    } else {
      assert es[..k] == es;
    }
  }

  /** One operation, of which `n` events happen. */
  lemma OpSafe(s: State, op: Op, n: nat, k: nat)
    requires Safe(s) && k <= n <= |OpTrace(s.reg, op)| && OpOk(s, op, n)
    ensures Safe(Run(s, OpTrace(s.reg, op)[..k]))
  {
    if k == 0 {
      assert OpTrace(s.reg, op)[..0] == [];
    } else if op.enable {
      EnableSafe(s, op, k);
    } else {
      DisableCut(s, op, k);
      DisableSound(s, op);
      StoreExact(s, op);
      DisableExact(s, op);
      DisableEnds(s, op);
      RunReg(s, OpTrace(s.reg, op));
      OpTraceParts(s.reg, op);
      if n > |SaveTrace(s.reg, op)| {
        DisableKeepsStore(s, op);
      }
    }
  }

  /** The save behind an enable, with any answers of the registry. */
  lemma EnableSaved(s: State, op: Op)
    requires Safe(s) && op.enable && GoodName(op.name, ':') && Fold(op.name) !in s.down
    ensures Safe(s.(reg := RegAfter(s.reg, SaveTrace(s.reg, op))))
  {
    var now := s.(reg := RegAfter(s.reg, SaveTrace(s.reg, op)));
    RegAfterSave(s.reg, op);
    if !op.readFailed && op.storeOk {
      SaveSound(s.reg, op);
      forall f | f in s.down
        ensures Logged(now.reg, f)
      {
        var n :| n in Listed(s.reg) && Fold(n) == f;
        LoggedIsHas(s.reg, n);
        SaveLogs(s.reg, op, n);
        LoggedIsHas(now.reg, n);
      }
    }
  }

  lemma EnableSafe(s: State, op: Op, k: nat)
    requires Safe(s) && op.enable && GoodName(op.name, ':') && k <= |OpTrace(s.reg, op)|
    ensures Safe(Run(s, OpTrace(s.reg, op)[..k]))
  {
    var ran, rest := Ran(op.name, true, op.rc), if op.rc == 0 then SaveTrace(s.reg, op) else [];
    RunPrefix(s, [ran], rest, k);
    RunOne(s, ran);
    var up := Step(s, ran);
    if k == 0 {
      assert [ran][..0] == [];
    } else if k == 1 {
      assert [ran][..1] == [ran];
    } else {
      EnableSaved(up, op);
      SaveCut(up, op, k - 1);
    }
  }

  /** The first `cut` events of the operations do no harm. */
  predicate OpsOk(s: State, ops: seq<Op>, cut: nat)
    decreases |ops|
  {
    ops == [] || (
      var es := OpTrace(s.reg, ops[0]);
      && OpOk(s, ops[0], Min(cut, |es|))
      && (cut > |es| ==> OpsOk(Run(s, es), ops[1..], cut - |es|)))
  }

  /** Any number of operations, of which `cut` events happen. */
  lemma {:induction false} OpsSafe(s: State, ops: seq<Op>, cut: nat, k: nat)
    requires Safe(s) && OpsOk(s, ops, cut) && k <= cut && k <= |OpsTrace(s.reg, ops)|
    ensures Safe(Run(s, OpsTrace(s.reg, ops)[..k]))
    decreases |ops|
  {
    var es := OpsTrace(s.reg, ops);
    if ops == [] {
      assert es[..k] == [];
    } else {
      var first := OpTrace(s.reg, ops[0]);
      var rest := OpsTrace(RegAfter(s.reg, first), ops[1..]);
      OpSafe(s, ops[0], Min(cut, |first|), Min(k, |first|));
      assert first[..|first|] == first;
      RunPrefix(s, first, rest, k);
      RunReg(s, first);
      if k > |first| {
        OpsSafe(Run(s, first), ops[1..], cut - |first|, k - |first|);
      }
    }
  }

  /** One life of the tool: some operations, of which a crash lets `cut` events happen. */
  datatype Session = Session(ops: seq<Op>, cut: nat)

  function SessionTrace(reg: Option<string>, session: Session): seq<Event> {
    var es := OpsTrace(reg, session.ops);
    es[..Min(session.cut, |es|)]
  }

  function RunTrace(reg: Option<string>, sessions: seq<Session>): seq<Event>
    decreases |sessions|
  {
    if sessions == [] then [] else
      var es := SessionTrace(reg, sessions[0]);
      es + RunTrace(RegAfter(reg, es), sessions[1..])
  }

  /** Everything that happens does no harm. */
  predicate SessionsOk(s: State, sessions: seq<Session>)
    decreases |sessions|
  {
    sessions == [] || (
      && OpsOk(s, sessions[0].ops, sessions[0].cut)
      && SessionsOk(Run(s, SessionTrace(s.reg, sessions[0])), sessions[1..]))
  }

  lemma SessionSafe(s: State, session: Session, k: nat)
    requires Safe(s) && OpsOk(s, session.ops, session.cut) && k <= |SessionTrace(s.reg, session)|
    ensures Safe(Run(s, SessionTrace(s.reg, session)[..k]))
  {
    var all, es := OpsTrace(s.reg, session.ops), SessionTrace(s.reg, session);
    assert es[..k] == all[..k];
    OpsSafe(s, session.ops, session.cut, k);
  }

  /** Crash safety: over every run of crashed and restarted sessions, after every single event,
      each adapter that was disabled and not successfully enabled since is in the log. */
  lemma {:induction false} CrashSafe(s: State, sessions: seq<Session>, k: nat)
    requires Safe(s) && SessionsOk(s, sessions) && k <= |RunTrace(s.reg, sessions)|
    ensures Safe(Run(s, RunTrace(s.reg, sessions)[..k]))
    decreases |sessions|
  {
    hide OpsOk, Safe, SessionTrace, Step;
    if sessions == [] {
      assert RunTrace(s.reg, sessions)[..k] == [];
    } else {
      var first := SessionTrace(s.reg, sessions[0]);
      var rest := RunTrace(RegAfter(s.reg, first), sessions[1..]);
      SessionSafe(s, sessions[0], Min(k, |first|));
      assert first[..|first|] == first;
      RunPrefix(s, first, rest, k);
      RunReg(s, first);
      if k > |first| {
        CrashSafe(Run(s, first), sessions[1..], k - |first|);
      }
    }
  }

  // ---- the condition is exact ---------------------------------------------

  /** After each of the events every adapter is covered. */
  predicate EveryCovered(s: State, es: seq<Event>) {
    forall k :: 0 <= k <= |es| ==> Covered(Run(s, es[..k]))
  }

  lemma EveryAppend(s: State, a: seq<Event>, b: seq<Event>)
    ensures EveryCovered(s, a + b) <==> EveryCovered(s, a) && EveryCovered(Run(s, a), b)
  {
    if EveryCovered(s, a + b) {
      forall k | 0 <= k <= |a|
        ensures Covered(Run(s, a[..k]))
      {
        RunPrefix(s, a, b, k);
        assert Covered(Run(s, (a + b)[..k]));
      }
      forall k | 0 <= k <= |b|
        ensures Covered(Run(Run(s, a), b[..k]))
      {
        TakeBack(a, b, |a| + k);
        RunAppend(s, a, b[..k]);
        assert Covered(Run(s, (a + b)[..|a| + k]));
      }
    } else if EveryCovered(s, a) && EveryCovered(Run(s, a), b) {
      forall k | 0 <= k <= |a + b|
        ensures Covered(Run(s, (a + b)[..k]))
      {
        RunPrefix(s, a, b, k);
        assert k <= |a| ==> Covered(Run(s, a[..k]));
        assert k > |a| ==> Covered(Run(Run(s, a), b[..k - |a|]));
      }
    }
  }

  lemma NothingHappens(s: State)
    requires Covered(s)
    ensures EveryCovered(s, [])
  {
    var none: seq<Event> := [];
    assert none[..0] == [];
  }

  lemma OpExact(s: State, op: Op, n: nat)
    requires Safe(s) && GoodName(op.name, ':') && n <= |OpTrace(s.reg, op)|
    ensures EveryCovered(s, OpTrace(s.reg, op)[..n]) <==> OpOk(s, op, n)
  {
    var es, part := OpTrace(s.reg, op), OpTrace(s.reg, op)[..n];
    if OpOk(s, op, n) {
      forall k | 0 <= k <= n
        ensures Covered(Run(s, part[..k]))
      {
        OpSafe(s, op, n, k);
        assert part[..k] == es[..k];
      }
    } else if EveryCovered(s, part) {
      assert part[..n] == part;
      DisableCut(s, op, n);
      StoreExact(s, op);
      DisableExact(s, op);
    }
  }

  lemma {:induction false} OpsExact(s: State, ops: seq<Op>, cut: nat)
    requires Safe(s) && forall op <- ops :: GoodName(op.name, ':')
    ensures var es := OpsTrace(s.reg, ops);
      EveryCovered(s, es[..Min(cut, |es|)]) <==> OpsOk(s, ops, cut)
    decreases |ops|
  {
    hide OpOk, OpTrace, EveryCovered, Covered, Sound, Run;
    if ops == [] {
      assert OpsTrace(s.reg, ops)[..0] == [];
      NothingHappens(s);
    } else {
      var first := OpTrace(s.reg, ops[0]);
      var rest := OpsTrace(RegAfter(s.reg, first), ops[1..]);
      assert ops[0] in ops && forall op <- ops[1..] :: op in ops;
      OpExact(s, ops[0], Min(cut, |first|));
      RunReg(s, first);
      var c := Min(cut, |first + rest|);
      if cut <= |first| {
        TakeFront(first, rest, c);
      } else {
        TakeBack(first, rest, c);
        assert first[..|first|] == first;
        EveryAppend(s, first, rest[..c - |first|]);
        if OpOk(s, ops[0], |first|) {
          OpSafe(s, ops[0], |first|, |first|);
          OpsExact(Run(s, first), ops[1..], cut - |first|);
        }
      }
    }
  }

  /** The condition is exact: over a run of crashed and restarted sessions every adapter is covered after
      every event if and only if each store and each command of a disable that happens keeps it so. */
  lemma {:induction false} CrashExact(s: State, sessions: seq<Session>)
    requires Safe(s) && forall session <- sessions, op <- session.ops :: GoodName(op.name, ':')
    ensures EveryCovered(s, RunTrace(s.reg, sessions)) <==> SessionsOk(s, sessions)
    decreases |sessions|
  {
    if sessions == [] {
      NothingHappens(s);
    } else {
      var session, first := sessions[0], SessionTrace(s.reg, sessions[0]);
      var rest := RunTrace(RegAfter(s.reg, first), sessions[1..]);
      assert session in sessions && forall x <- sessions[1..] :: x in sessions;
      OpsExact(s, session.ops, session.cut);
      EveryAppend(s, first, rest);
      RunReg(s, first);
      if OpsOk(s, session.ops, session.cut) {
        assert first[..|first|] == first;
        SessionSafe(s, session, |first|);
        CrashExact(Run(s, first), sessions[1..]);
      }
    }
  }

  /** For example, with "a" down, a failed read makes the log of "b" replace the log of "a". */
  lemma FailedReadForgets()
    ensures var s := State(Some("a:"), {"a"});
      Safe(s) && !Covered(Run(s, OpTrace(s.reg, Op("b", false, 0, true, true))))
  {
    var s, op := State(Some("a:"), {"a"}), Op("b", false, 0, true, true);
    SplitWritten(["a"], ':');
    assert Written(["a"], ':') == "a:" && ["a"][1..] == [];
    assert Listed(s.reg) == ["a"] && "a" in Listed(s.reg);
    assert Fold("a") == "a" && Fold("b") == "b";
    DisableExact(s, op);
    assert "a" in s.down && "a" !in {Fold(op.name)};
  }

  // ---- replay -------------------------------------------------------------

  /** The operations of a replay: one enable for each name, with the given answers. */
  predicate Replays(ops: seq<Op>, names: seq<string>) {
    |ops| == |names| && forall i :: 0 <= i < |ops| ==> ops[i].enable && ops[i].name == names[i]
  }

  lemma ReplaysMore(ops: seq<Op>, names: seq<string>, k: nat, op: Op)
    requires k < |names| && Replays(ops, names[..k]) && op.enable && op.name == names[k]
    ensures Replays(ops + [op], names[..k + 1])
  {
  }

  /** The name stays in the log: the enable failed, or its log could not be read or written. */
  predicate Stays(op: Op) {
    op.rc != 0 || op.readFailed || !op.storeOk
  }

  /** The names that stay, in order. */
  function Staying(ops: seq<Op>): seq<string> {
    if ops == [] then [] else (if Stays(ops[0]) then [ops[0].name] else []) + Staying(ops[1..])
  }

  lemma {:induction false} HasAt(names: seq<string>, k: nat, name: string)
    requires k < |names| && SameFold(names[k], name)
    ensures Has(names, name)
  {
    if k > 0 {
      HasAt(names[1..], k - 1, name);
    }
  }

  lemma {:induction false} NoRepeatAt(names: seq<string>, i: nat, k: nat)
    requires NoRepeat(names) && i < k < |names|
    ensures !SameFold(names[i], names[k])
  {
    if i == 0 {
      if SameFold(names[k], names[0]) {
        HasAt(names[1..], k - 1, names[0]);
      }
    } else {
      NoRepeatAt(names[1..], i - 1, k - 1);
    }
  }

  lemma RemoveBehind(front: seq<string>, name: string, rest: seq<string>)
    requires NoRepeat(front + [name] + rest)
    ensures RemoveName(front + [name] + rest, name) == front + rest
  {
    var all, k := front + [name] + rest, |front|;
    forall i | 0 <= i < k
      ensures !SameFold(all[i], name)
    {
      NoRepeatAt(all, i, k);
    }
    FirstMatch(all, name, k);
    assert all[..k] == front && all[k + 1..] == rest;
  }

  lemma ReplayStep(reg: Option<string>, op: Op, front: seq<string>, rest: seq<string>)
    requires Sound(reg) && Listed(reg) == front + [op.name] + rest && op.enable
    ensures var now := RegAfter(reg, OpTrace(reg, op));
      Sound(now) && Listed(now) == if Stays(op) then front + [op.name] + rest else front + rest
  {
    ListedGood(reg);
    assert Listed(reg)[|front|] == op.name && GoodName(op.name, ':');
    OpTraceParts(reg, op);
    RegAfterSave(reg, op);
    if !Stays(op) {
      SaveSound(reg, op);
      RemoveBehind(front, op.name, rest);
    }
  }

  lemma {:induction false} ReplayFrom(reg: Option<string>, ops: seq<Op>, front: seq<string>, rest: seq<string>)
    requires Sound(reg) && Listed(reg) == front + rest && Replays(ops, rest)
    ensures Listed(RegAfter(reg, OpsTrace(reg, ops))) == front + Staying(ops)
    decreases |ops|
  {
    if ops != [] {
      var op, es := ops[0], OpTrace(reg, ops[0]);
      var kept := if Stays(op) then front + [op.name] else front;
      assert rest[0] == op.name;
      Shift(front, rest);
      ReplayStep(reg, op, front, rest[1..]);
      RegAppend(reg, es, OpsTrace(RegAfter(reg, es), ops[1..]));
      ReplayFrom(RegAfter(reg, es), ops[1..], kept, rest[1..]);
      Associative(front, if Stays(op) then [op.name] else [], Staying(ops[1..]));
      assert front + [] == front;
    }
  }

  lemma {:induction false} RegAppend(reg: Option<string>, a: seq<Event>, b: seq<Event>)
    ensures RegAfter(reg, a + b) == RegAfter(RegAfter(reg, a), b)
    decreases |a|
  {
    if a == [] {
      assert a + b == b;
    } else {
      TailAppend(a, b);
      RegAppend(if a[0].Stored? then Some(a[0].text) else reg, a[1..], b);
    }
  }

  /** Replay is exact, although every turn re-reads, edits and rewrites the list it walks: from a
      sound log exactly the names remain whose enable failed or whose log could not be read or written,
      in their old order. */
  lemma ReplayExact(reg: Option<string>, ops: seq<Op>)
    requires Sound(reg) && Replays(ops, Listed(reg))
    ensures Listed(RegAfter(reg, OpsTrace(reg, ops))) == Staying(ops)
  {
    assert [] + Listed(reg) == Listed(reg);
    ReplayFrom(reg, ops, [], Listed(reg));
    assert [] + Staying(ops) == Staying(ops);
  }

  /** The names whose enable failed, in order. */
  function StillDown(ops: seq<Op>): seq<string> {
    if ops == [] then [] else (if ops[0].rc == 0 then [] else [ops[0].name]) + StillDown(ops[1..])
  }

  /** With a registry that can be read and written those are the names that stay. */
  lemma {:induction false} ReplayReliable(ops: seq<Op>)
    requires forall op <- ops :: !op.readFailed && op.storeOk
    ensures Staying(ops) == StillDown(ops)
  {
    if ops != [] {
      assert ops[0] in ops && forall op <- ops[1..] :: op in ops;
      ReplayReliable(ops[1..]);
    }
  }

  /** The log is empty, and a second replay has nothing to do, exactly when every enable succeeded and
      was erased. */
  lemma ReplayTwice(reg: Option<string>, ops: seq<Op>, again: seq<Op>)
    requires Sound(reg) && Replays(ops, Listed(reg))
    requires Replays(again, Listed(RegAfter(reg, OpsTrace(reg, ops))))
    ensures again == [] <==> forall op <- ops :: !Stays(op)
  {
    ReplayExact(reg, ops);
    AllUp(ops);
  }

  lemma {:induction false} AllUp(ops: seq<Op>)
    ensures Staying(ops) == [] <==> forall op <- ops :: !Stays(op)
  {
    if ops != [] {
      AllUp(ops[1..]);
      assert ops == [ops[0]] + ops[1..];
    }
  }

  // ---- commands and limits ------------------------------------------------

  /** The commands among the events. */
  function Commands(es: seq<Event>): seq<Event> {
    if es == [] then [] else (if es[0].Ran? then [es[0]] else []) + Commands(es[1..])
  }

  lemma {:induction false} CommandsAppend(a: seq<Event>, b: seq<Event>)
    ensures Commands(a + b) == Commands(a) + Commands(b)
  {
    if a == [] {
      assert a + b == b;
    } else {
      TailAppend(a, b);
      CommandsAppend(a[1..], b);
    }
  }

  lemma {:induction false} NoCommands(es: seq<Event>)
    requires forall e <- es :: !e.Ran?
    ensures Commands(es) == []
  {
    if es != [] {
      assert es[0] in es && forall e <- es[1..] :: e in es;
      NoCommands(es[1..]);
    }
  }

  lemma OpCommand(reg: Option<string>, op: Op)
    ensures Commands(OpTrace(reg, op)) == [Ran(op.name, op.enable, op.rc)]
  {
    var ran, save := [Ran(op.name, op.enable, op.rc)], SaveTrace(reg, op);
    NoCommands(save);
    assert ran[1..] == [];
    CommandsAppend(save, ran);
    CommandsAppend(ran, save);
  }

  /** Every operation runs its command exactly once, in order. */
  lemma {:induction false} OpsCommands(reg: Option<string>, ops: seq<Op>, i: nat)
    ensures |Commands(OpsTrace(reg, ops))| == |ops|
    ensures i < |ops| ==> Commands(OpsTrace(reg, ops))[i] == Ran(ops[i].name, ops[i].enable, ops[i].rc)
    decreases |ops|
  {
    if ops != [] {
      var es := OpTrace(reg, ops[0]);
      OpCommand(reg, ops[0]);
      CommandsAppend(es, OpsTrace(RegAfter(reg, es), ops[1..]));
      OpsCommands(RegAfter(reg, es), ops[1..], if i > 0 then i - 1 else 0);
    }
  }

  /** A disable that finds nothing failing stores the old names and its own, each followed by a colon,
      while that is at most 4095 characters long. */
  lemma DisableStores(reg: Option<string>, op: Op)
    requires Sound(reg) && !op.enable && !op.readFailed && op.storeOk && GoodName(op.name, ':')
    requires !Has(Listed(reg), op.name) && |Written(Listed(reg) + [op.name], ':')| <= 4095
    ensures OpTrace(reg, op) == [Stored(Written(Listed(reg) + [op.name], ':')), Ran(op.name, false, op.rc)]
  {
    var all := Listed(reg) + [op.name];
    FitExact(all, ':', 0, SAVE_BUF);
    assert all[..|all|] == all;
  }

  /** Without a log the first disable starts one. */
  lemma FirstDisable(op: Op)
    requires !op.enable && !op.readFailed && op.storeOk && GoodName(op.name, ':') && |op.name| <= 4094
    ensures OpTrace(None, op) == [Stored(op.name + ":"), Ran(op.name, false, op.rc)]
  {
    var all := [op.name];
    assert [] + all == all && all[1..] == [] && all[..1] == all;
    assert op.name + ":" == Written(all, ':');
    FitExact(all, ':', 0, SAVE_BUF);
  }
}
