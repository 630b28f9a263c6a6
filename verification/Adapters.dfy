/** Enabling, disabling and restoring adapters on Windows (setnet.c), proved to produce the events
    of `DisableLog`. */
module Adapters {
  import opened Text
  import Names
  import opened NameList
  import opened DisableLog

  class System {
    var reg: Option<string>        // the registry value that lists the disabled adapters
    var events: seq<Event>         // everything done to the system so far

    /** `get_reg_value`: 0 and the value, -1 when there is none, 1 on any other error. */
    method GetReg() returns (rc: int, buf: string)
      modifies this
      ensures reg == old(reg)
      ensures rc == 1 || rc == if reg.Some? then 0 else -1
      ensures events == if rc == 1 then old(events) + [ReadFailed] else old(events)
      ensures rc == 0 ==> buf == reg.value
    {
      var ok: bool := *;
      buf := "";
      if !ok {
        events := events + [ReadFailed];
        return 1, buf;
      }
      match reg {
        case None => rc := -1;
        case Some(t) => rc, buf := 0, t;
      }
    }

    /** `set_reg_value` */
    method SetReg(value: string) returns (rc: int)
      modifies this
      ensures rc == 0 || rc == 1
      ensures events == old(events) + [if rc == 0 then Stored(value) else StoreFailed]
      ensures reg == if rc == 0 then Some(value) else old(reg)
    {
      var ok: bool := *;
      if ok {
        reg, events, rc := Some(value), events + [Stored(value)], 0;
      } else {
        events, rc := events + [StoreFailed], 1;
      }
    }

    /** `exec_netsh` with the command that enables or disables an adapter: any answer. */
    method ExecNetsh(name: string, enable: bool) returns (rc: int)
      modifies this
      ensures reg == old(reg) && events == old(events) + [Ran(name, enable, rc)]
    {
      rc := *;
      events := events + [Ran(name, enable, rc)];
    }

    /** The registry value is a C string. */
    ghost predicate Valid()
      reads this
    {
      reg.Some? ==> '\0' !in reg.value
    }

    /** `save_adapter_disabled`; `op` records the environment's answers. */
    method SaveAdapterDisabled(name: string, enable: bool) returns (rc: int, ghost op: Op)
      requires Valid() && '\0' !in name
      modifies this
      ensures Valid()
      ensures op.name == name && op.enable == enable
      ensures events == old(events) + SaveTrace(old(reg), op)
      ensures reg == RegAfter(old(reg), SaveTrace(old(reg), op))
    {
      ghost var was := reg;
      var adapters := new List();
      var buf;
      rc, buf := GetReg();
      op := Op(name, enable, 0, rc == 1, true);
      if rc == 0 {
        adapters.Split(buf, ':');
        TokensFree(buf, ':', '\0');
      }
      ghost var names := if op.readFailed then [] else Listed(was);
      assert adapters.names == names;
      RegAfterSave(was, op);
      var found := adapters.Search(name);
      if enable {
        if !found {
          return 0, op;
        }
        RemoveFree(adapters.names, name);
        var _ := adapters.Remove(name);
      } else {
        if found {
          return 0, op;
        }
        adapters.Add(name);
      }
      var saveBuf := PrintList(adapters);
      assert Update(names, name, enable) == Some(saveBuf);
      rc := SetReg(saveBuf);
      op := op.(storeOk := rc == 0);
      RegAfterSave(was, op);
    }

    /** `enable_adapter_name` */
    method EnableAdapterName(name: string, enable: bool) returns (rc: int, ghost op: Op)
      requires Valid() && '\0' !in name
      modifies this
      ensures Valid() && rc == 0
      ensures op.name == name && op.enable == enable
      ensures events == old(events) + OpTrace(old(reg), op)
      ensures reg == RegAfter(old(reg), OpTrace(old(reg), op))
    {
      ghost var was, log := reg, events;
      op := Op(name, enable, 0, false, true);
      if !enable {
        rc, op := SaveAdapterDisabled(name, false);
      }
      rc := ExecNetsh(name, enable);
      ghost var answer := rc;
      if enable && rc == 0 {
        rc, op := SaveAdapterDisabled(name, true);
      }
      op := op.(rc := answer);
      OpTraceParts(was, op);
      assert events == log + OpTrace(was, op);
      rc := 0;
    }

    /** `restore_adapter_state`: every listed adapter is enabled, while each success rewrites the
        list. 1 when the list could not be read. */
    method RestoreAdapterState() returns (rc: int, ghost ops: seq<Op>)
      requires Valid()
      modifies this
      ensures Valid()
      ensures rc == 1 ==> ops == [] && events == old(events) + [ReadFailed] && reg == old(reg)
      ensures rc == 0 ==> Replays(ops, Listed(old(reg)))
      ensures rc == 0 ==> events == old(events) + OpsTrace(old(reg), ops)
      ensures rc == 0 ==> reg == RegAfter(old(reg), OpsTrace(old(reg), ops))
      ensures rc == 0 || rc == 1
    {
      ops := [];
      var buf;
      rc, buf := GetReg();
      if rc != 0 || |buf| == 0 {
        assert rc != 1 ==> Listed(reg) == [] && events + OpsTrace(reg, ops) == events;
        rc := if rc > 0 then 1 else 0;
        return;
      }
      var adapters := new List();
      adapters.Split(buf, ':');
      TokensFree(buf, ':', '\0');
      assert adapters.names == Listed(reg);
      ops := RestoreEach(adapters);
    }

    /** The loop of `restore_adapter_state` over the list it read. */
    method RestoreEach(adapters: List) returns (ghost ops: seq<Op>)
      requires Valid() && adapters.Valid() && this !in adapters.Repr
      requires forall n <- adapters.names :: '\0' !in n
      modifies this
      ensures Valid() && Replays(ops, adapters.names)
      ensures events == old(events) + OpsTrace(old(reg), ops)
      ensures reg == RegAfter(old(reg), OpsTrace(old(reg), ops))
    {
      ghost var was, log, names := reg, events, adapters.names;
      ops := [];
      var it := adapters.head;
      ghost var k := 0;
      while it != null
        invariant Valid() && adapters.Valid() && adapters.names == names
        invariant k <= |adapters.nodes| && it == adapters.At(k) && Replays(ops, names[..k])
        invariant events == log + OpsTrace(was, ops) && reg == RegAfter(was, OpsTrace(was, ops))
        decreases |adapters.nodes| - k
      {
        assert names[k] in names;
        ghost var before := reg;
        var _, op := EnableAdapterName(it.name, true);
        OpsTraceAppend(was, ops, op);
        ReplaysMore(ops, names, k, op);
        Associative(log, OpsTrace(was, ops), OpTrace(before, op));
        ops := ops + [op];
        it, k := it.next, k + 1;
      }
      assert names[..k] == names;
    }
  }

  lemma {:induction false} RemoveFree(names: seq<string>, name: string)
    requires forall n <- names :: '\0' !in n
    ensures forall n <- Names.RemoveName(names, name) :: '\0' !in n
  {
    if names != [] {
      assert forall n <- names[1..] :: n in names;
      RemoveFree(names[1..], name);
    }
  }

  /** The list printed into the 4096-byte buffer on the stack. */
  method PrintList(adapters: List) returns (text: string)
    requires adapters.Valid() && forall n <- adapters.names :: '\0' !in n
    ensures text == Names.Printed(adapters.names, ':', SAVE_BUF) && '\0' !in text
  {
    var saveBuf := new char[SAVE_BUF];
    adapters.Print(saveBuf, ':');
    HoldsString(saveBuf[..], Names.Printed(adapters.names, ':', SAVE_BUF));
    text := StrAt(saveBuf[..], 0);
  }
}
