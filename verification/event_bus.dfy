/** Callbacks, the bus they are registered on, and the awaiter of their statuses. */
module Events {
  import opened Bytes

  const WORD64: int := 0x1_0000_0000_0000_0000

  /** `e_id`, 64 bits wide. */
  type Id = i: int | 0 <= i < WORD64

  datatype Event = Event(id: Id, status: int)

  /** A suspended coroutine. */
  type Handle = nat

  /** What an `event_callback` stores: a status not yet awaited, and who awaits one. */
  datatype Stored = Stored(status: Option<int>, handle: Option<Handle>) {
    ghost predicate NotBoth() {
      !(status.Some? && handle.Some?)
    }
  }

  const NOTHING: Stored := Stored(None, None)

  /** `notify`: the status is stored, and the handle is taken out to be resumed. */
  function Notified(c: Stored, status: int): Stored {
    Stored(Some(status), None)
  }

  /** The counter after one more registration. */
  function NextId(counter: Id): Id {
    (counter + 1) % WORD64
  }

  class EventCallback {
    const id: Id
    const bus: EventBus
    var status: Option<int>
    var suspended: Option<Handle>

    ghost function Value(): Stored
      reads this
    {
      Stored(status, suspended)
    }

    constructor (bus: EventBus)
      modifies bus
      ensures this.bus == bus && Value() == NOTHING
      ensures id == bus.idCounter == NextId(old(bus.idCounter))
      ensures bus.callbacks == old(bus.callbacks)[id := this]
    {
      this.bus, status, suspended := bus, None, None;
      id := NextId(bus.idCounter);  // what the registration below returns
      new;
      var given := bus.RegisterEventCallback(this);
      assert given == id;
    }

    /** The destructor. */
    method Destroy()
      modifies bus
      ensures bus.idCounter == old(bus.idCounter) && bus.callbacks == old(bus.callbacks) - {id}
    {
      bus.DeregisterEventCallback(id);
    }

    /** `set_handle`: at most one coroutine waits. */
    method SetHandle(handle: Handle) returns (r: Outcome<()>)
      modifies this`suspended
      ensures r == if old(suspended).Some? then Throw(HandleAlreadySet) else Ok(())
      ensures suspended == if old(suspended).Some? then old(suspended) else Some(handle)
    {
      if suspended.Some? {
        return Throw(HandleAlreadySet);
      }
      suspended := Some(handle);
      return Ok(());
    }

    /** `notify`, up to the resumption of the coroutine it returns. */
    method Notify(status: int) returns (resumed: Option<Handle>)
      modifies this`status, this`suspended
      ensures Value() == Notified(old(Value()), status) && resumed == old(suspended)
    {
      this.status := Some(status);
      resumed := suspended;
      suspended := None;
    }

    method Reset()
      modifies this`status, this`suspended
      ensures Value() == NOTHING
    {
      status, suspended := None, None;
    }
  }

  class EventBus {
    var idCounter: Id
    var callbacks: map<Id, EventCallback>

    constructor ()
      ensures idCounter == 0 && callbacks == map[]
    {
      idCounter, callbacks := 0, map[];
    }

    method RegisterEventCallback(callback: EventCallback) returns (id: Id)
      modifies this
      ensures id == idCounter == NextId(old(idCounter))
      ensures callbacks == old(callbacks)[id := callback]
    {
      idCounter := (idCounter + 1) % WORD64;
      id := idCounter;
      callbacks := callbacks[id := callback];
    }

    method DeregisterEventCallback(id: Id)
      modifies this
      ensures idCounter == old(idCounter) && callbacks == old(callbacks) - {id}
    {
      callbacks := callbacks - {id};
    }

    /** `notify`: an event without a registered callback is dropped. */
    method Notify(id: Id, status: int) returns (resumed: Option<Handle>)
      modifies if id in callbacks then {callbacks[id]} else {}
      ensures if id in callbacks
        then
          && callbacks[id].Value() == Notified(old(callbacks[id].Value()), status)
          && resumed == old(callbacks[id].suspended)
        else resumed == None
    {
      if id in callbacks {
        resumed := callbacks[id].Notify(status);
      } else {
        resumed := None;
      }
    }
  }

  class StatusAwaiter {
    var callback: EventCallback?

    constructor (callback: EventCallback)
      ensures this.callback == callback
    {
      this.callback := callback;
    }

    method AwaitReady() returns (ready: bool)
      ensures ready <==> callback == null || callback.status.Some?
    {
      return callback == null || callback.status.Some?;
    }

    method AwaitSuspend(handle: Handle) returns (r: Outcome<()>)
      requires callback != null
      modifies callback`suspended
      ensures r == if old(callback.suspended).Some? then Throw(HandleAlreadySet) else Ok(())
      ensures callback.suspended == if old(callback.suspended).Some? then old(callback.suspended) else Some(handle)
    {
      r := callback.SetHandle(handle);
    }

    /** `await_resume`: the status is taken once; without one, `std::optional::value` throws. */
    method AwaitResume() returns (r: Outcome<int>)
      modifies this, if callback != null then {callback} else {}
      ensures old(callback) == null ==> r == Ok(0) && callback == null
      ensures old(callback) != null && old(callback.status).Some? ==>
        r == Ok(old(callback.status.value)) && callback == null && old(callback).Value() == NOTHING
      ensures old(callback) != null && old(callback.status).None? ==>
        r == Throw(NoStatus) && callback == old(callback) && callback.Value() == old(callback.Value())
    {
      if callback == null {
        return Ok(0);
      }
      if callback.status == None {
        return Throw(NoStatus);
      }
      r := Ok(callback.status.value);
      callback.Reset();
      callback := null;
    }

    /** The destructor: an awaiter that was not resumed forgets what its callback stores. */
    method Destroy()
      modifies if callback != null then {callback} else {}
      ensures callback == old(callback) && (callback != null ==> callback.Value() == NOTHING)
    {
      if callback != null {
        callback.Reset();
      }
    }
  }
}
