/** The client's request table (app/oam/external/oam_ext_sdk.c). */
module OamTable {
  import opened Bits

  const CV_SDK_MAX_REQ := 255
  const WORD := 0x1_0000_0000

  datatype Option<+T> = None | Some(value: T)

  /** `cv_sdk_req_record_t`; `H` is what stands for the caller's message. */
  datatype Record<H> = Record(valid: bool, reqId: nat, sem: nat, msg: Option<H>)

  /** `cv_sdk_api_ctrl_t`: the records and the next request id. */
  datatype Ctrl<H> = Ctrl(reqs: seq<Record<H>>, reqNext: nat) {
    predicate Wf() { |reqs| == CV_SDK_MAX_REQ && reqNext < WORD }
  }

  /** The first free record at or after `i`. */
  function FirstFree<H>(reqs: seq<Record<H>>, i: nat): (r: nat)
    requires i <= |reqs|
    ensures i <= r <= |reqs|
    ensures r < |reqs| ==> !reqs[r].valid
    ensures forall j | i <= j < r :: reqs[j].valid
    decreases |reqs| - i
  {
    if i == |reqs| || !reqs[i].valid then i else FirstFree(reqs, i + 1)
  }

  /** The first valid record at or after `i` with this id. */
  function FirstWith<H>(reqs: seq<Record<H>>, id: nat, i: nat): (r: nat)
    requires i <= |reqs|
    ensures i <= r <= |reqs|
    ensures r < |reqs| ==> reqs[r].valid && reqs[r].reqId == id
    ensures forall j | i <= j < r :: !(reqs[j].valid && reqs[j].reqId == id)
    decreases |reqs| - i
  {
    if i == |reqs| || (reqs[i].valid && reqs[i].reqId == id) then i else FirstWith(reqs, id, i + 1)
  }

  /** A table with a fresh record for `h`; a failing semaphore leaves the record free but dirty. */
  function Allocated<H>(c: Ctrl<H>, h: H, semOk: bool): Ctrl<H>
    requires c.Wf()
  {
    var i := FirstFree(c.reqs, 0);
    if i == |c.reqs| then c
    else if semOk then Ctrl(c.reqs[i := Record(true, c.reqNext, 0, Some(h))], (c.reqNext + 1) % WORD)
    else Ctrl(c.reqs[i := c.reqs[i].(reqId := c.reqNext, msg := Some(h))], (c.reqNext + 1) % WORD)
  }

  function AllocatedSlot<H>(c: Ctrl<H>, semOk: bool): Option<nat>
    requires c.Wf()
  {
    var i := FirstFree(c.reqs, 0);
    if i == |c.reqs| || !semOk then None else Some(i)
  }

  /**
   * Taking a record: the first free one, under the next id, with a count of zero; a failing semaphore
   * uses up an id and makes no record valid; without a free record nothing happens.
   */
  lemma AllocatedIs<H>(c: Ctrl<H>, h: H, semOk: bool)
    requires c.Wf()
    ensures var c', slot := Allocated(c, h, semOk), AllocatedSlot(c, semOk);
            && c'.Wf()
            && (slot.Some? ==>
                  && slot.value < |c.reqs| && !c.reqs[slot.value].valid && semOk
                  && (forall j | 0 <= j < slot.value :: c.reqs[j].valid)
                  && c' == Ctrl(c.reqs[slot.value := Record(true, c.reqNext, 0, Some(h))], (c.reqNext + 1) % WORD))
            && (slot.None? && (forall j | 0 <= j < |c.reqs| :: c.reqs[j].valid) ==> c' == c)
            && (slot.None? && (exists j :: 0 <= j < |c.reqs| && !c.reqs[j].valid) ==> !semOk && c'.reqNext == (c.reqNext + 1) % WORD)
            && (slot.None? ==> forall j | 0 <= j < |c.reqs| ::
                  c'.reqs[j].valid == c.reqs[j].valid && (c.reqs[j].valid ==> c'.reqs[j] == c.reqs[j]))
  {
    hide FirstFree;
  }

  function Freed<H>(c: Ctrl<H>, i: nat): Ctrl<H>
    requires c.Wf() && i < |c.reqs|
  {
    c.(reqs := c.reqs[i := Record(false, 0, 0, None)])
  }

  function Found<H>(c: Ctrl<H>, id: nat): Option<nat>
    requires c.Wf()
  {
    var i := FirstWith(c.reqs, id, 0);
    if i == |c.reqs| then None else Some(i)
  }

  /** The table as the C code keeps it, changed in place. */
  class RequestTable<H> {
    const reqs: array<Record<H>>
    var reqNext: nat

    ghost predicate Valid()
      reads this
    {
      reqs.Length == CV_SDK_MAX_REQ && reqNext < WORD
    }

    ghost function Value(): (c: Ctrl<H>)
      requires Valid()
      reads this, reqs
      ensures c.Wf()
    {
      Ctrl(reqs[..], reqNext)
    }

    constructor ()
      ensures Valid() && fresh(reqs)
      ensures Value() == Ctrl(seq(CV_SDK_MAX_REQ, _ => Record(false, 0, 0, None)), 0)
    {
      reqs := new Record<H>[CV_SDK_MAX_REQ](_ => Record(false, 0, 0, None));
      reqNext := 0;
      new;
      assert reqs[..] == seq(CV_SDK_MAX_REQ, _ => Record(false, 0, 0, None));
    }

    method RecordAlloc(msg: H, semOk: bool) returns (req: Option<nat>)
      requires Valid()
      modifies this, reqs
      ensures Valid() && Value() == Allocated(old(Value()), msg, semOk)
      ensures req == AllocatedSlot(old(Value()), semOk)
    {
      var i := 0;
      while i < CV_SDK_MAX_REQ && reqs[i].valid
        invariant i <= CV_SDK_MAX_REQ
        invariant FirstFree(reqs[..], 0) == FirstFree(reqs[..], i)
      {
        i := i + 1;
      }
      if i == CV_SDK_MAX_REQ {
        return None;
      }
      reqs[i] := reqs[i].(reqId := reqNext);
      reqNext := (reqNext + 1) % WORD;
      reqs[i] := reqs[i].(msg := Some(msg));
      if !semOk {
        return None;
      }
      reqs[i] := reqs[i].(sem := 0);
      reqs[i] := reqs[i].(valid := true);
      return Some(i);
    }

    method RecordFree(req: nat)
      requires Valid() && req < CV_SDK_MAX_REQ
      modifies reqs
      ensures Value() == Freed(old(Value()), req)
      ensures reqs[req] == Record(false, 0, 0, None)
      ensures forall i | 0 <= i < reqs.Length && i != req :: reqs[i] == old(reqs[i])
    {
      reqs[req] := Record(false, 0, 0, None);
    }

    method RecordFind(reqId: nat) returns (req: Option<nat>)
      requires Valid()
      ensures req == Found(Value(), reqId)
    {
      req := None;
      var i := 0;
      while i < CV_SDK_MAX_REQ
        invariant i <= CV_SDK_MAX_REQ && req.None?
        invariant FirstWith(reqs[..], reqId, 0) == FirstWith(reqs[..], reqId, i)
      {
        if !reqs[i].valid {
          i := i + 1;
          continue;
        }
        if reqs[i].reqId == reqId {
          req := Some(i);
          break;
        }
        i := i + 1;
      }
    }
  }
}
