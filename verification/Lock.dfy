/** The cross-instance ownership record `<server>/.mcsm/owner.json` and the operations on it. */
module Lock {
  import opened Prelude

  /** Wall-clock instants and durations, in nanoseconds. */
  type Time = int

  const DEFAULT_STALE_AFTER: Time := 60_000_000_000

  datatype Owner = Owner(instance: string, slot: string, host: string, pid: int, startedAt: Time, heartbeat: Time)

  datatype Ownership = Free | OwnedSelf | OwnedOther | Stale

  predicate IsStale(o: Option<Owner>, now: Time, threshold: Time) {
    o.Some? && now - o.value.heartbeat > threshold
  }

  function Classify(o: Option<Owner>, instance: string, now: Time, threshold: Time): Ownership {
    if o.None? then Free
    else if IsStale(o, now, threshold) then Stale
    else if o.value.instance == instance then OwnedSelf
    else OwnedOther
  }

  datatype AcquireError =
    | Unreadable                 // owner.json exists but does not parse
    | HeldUnderSlot(slot: string)
    | StaleNeedsForce
    | HeldByOther

  datatype Claim = Claim(instance: string, slot: string, host: string, pid: int, force: bool)

  /** The record `TryAcquire` writes, or why it refuses. `seen` is the clock reading the staleness
      test uses and `stamp` the later one that goes into the record. */
  function Acquire(cur: Option<Owner>, c: Claim, seen: Time, stamp: Time): Result<Owner, AcquireError> {
    var granted := Ok(Owner(c.instance, c.slot, c.host, c.pid, stamp, stamp));
    match Classify(cur, c.instance, seen, DEFAULT_STALE_AFTER)
    case Free => granted
    case OwnedSelf => if cur.value.slot != c.slot then Err(HeldUnderSlot(cur.value.slot)) else granted
    case Stale => if c.force then granted else Err(StaleNeedsForce)
    case OwnedOther => Err(HeldByOther)
  }

  /** A claim succeeds exactly on an absent record, on a record too old that the caller forces, or on
      the claimant's own record; being forced never takes a record that another claimant keeps fresh. */
  lemma AcquireSucceedsIff(cur: Option<Owner>, c: Claim, seen: Time, stamp: Time)
    ensures Acquire(cur, c, seen, stamp).Ok? <==>
            (cur.Some? ==> if seen - cur.value.heartbeat > 60_000_000_000 then c.force
                           else (cur.value.instance, cur.value.slot) == (c.instance, c.slot))
    ensures Acquire(cur, c, seen, stamp).Ok? ==>
              Acquire(cur, c, seen, stamp).value == Owner(c.instance, c.slot, c.host, c.pid, stamp, stamp)
  {
  }

  /** Why a claim is refused: a stale record that is not forced, a fresh one of the claimant's instance under
      another slot, or a fresh one of another instance. */
  lemma AcquireRefusals(cur: Option<Owner>, c: Claim, seen: Time, stamp: Time)
    requires cur.Some?
    ensures var o, aged := cur.value, seen - cur.value.heartbeat > 60_000_000_000;
            && (Acquire(cur, c, seen, stamp) == Err(StaleNeedsForce) <==> aged && !c.force)
            && (Acquire(cur, c, seen, stamp) == Err(HeldUnderSlot(o.slot)) <==>
                !aged && o.instance == c.instance && o.slot != c.slot)
            && (Acquire(cur, c, seen, stamp) == Err(HeldByOther) <==> !aged && o.instance != c.instance)
  {
  }

  /** What a server directory holds: nothing, bytes that do not parse, or a record. */
  datatype FileState = Absent | Garbled | Holds(owner: Owner)

  function Parse(f: FileState): Result<Option<Owner>, AcquireError> {
    match f
    case Absent => Ok(None)
    case Garbled => Err(Unreadable)
    case Holds(o) => Ok(Some(o))
  }

  function AcquireFrom(f: FileState, c: Claim, seen: Time, stamp: Time): Result<Owner, AcquireError> {
    match Parse(f)
    case Err(e) => Err(e)
    case Ok(cur) => Acquire(cur, c, seen, stamp)
  }

  /** The owner file of one server directory, shared by every instance that mounts the directory. */
  class OwnerFile {
    const dir: string
    var content: FileState

    constructor (dir: string)
      ensures this.dir == dir && content == Absent
    {
      this.dir := dir;
      content := Absent;
    }
  }

  /** A lock in hand. `beating` says that its heartbeat goroutine still runs. */
  class Held {
    const file: OwnerFile
    var owner: Owner
    var beating: bool

    constructor (file: OwnerFile, owner: Owner)
      ensures this.file == file && this.owner == owner && beating
    {
      this.file := file;
      this.owner := owner;
      beating := true;
    }

    method Refresh(now: Time)
      modifies this, file
      ensures owner == old(owner).(heartbeat := now)
      ensures file.content == Holds(owner)
      ensures beating == old(beating)
    {
      owner := owner.(heartbeat := now);
      file.content := Holds(owner);
    }

    /** Safe to call more than once; removes the file whatever it holds by then. */
    method Release()
      modifies this, file
      ensures !beating && owner == old(owner)
      ensures file.content == Absent
    {
      if beating {
        beating := false;
      }
      file.content := Absent;
    }
  }

  method TryAcquire(file: OwnerFile, c: Claim, seen: Time, stamp: Time) returns (r: Result<Held, AcquireError>)
    modifies file
    ensures match AcquireFrom(old(file.content), c, seen, stamp)
            case Ok(o) => r.Ok? && fresh(r.value) && r.value.file == file && r.value.owner == o
                          && r.value.beating && file.content == Holds(o)
            case Err(e) => r == Err(e) && file.content == old(file.content)
  {
    var cur: Option<Owner> := None;
    match file.content {
      case Absent =>
      case Garbled => return Err(Unreadable);
      case Holds(o) => cur := Some(o);
    }
    var state := Classify(cur, c.instance, seen, DEFAULT_STALE_AFTER);
    if state == OwnedSelf && cur.value.slot != c.slot {
      return Err(HeldUnderSlot(cur.value.slot));
    } else if state == Stale && !c.force {
      return Err(StaleNeedsForce);
    } else if state == OwnedOther {
      return Err(HeldByOther);
    }
    var o := Owner(c.instance, c.slot, c.host, c.pid, stamp, stamp);
    file.content := Holds(o);
    var h := new Held(file, o);
    return Ok(h);
  }
}
