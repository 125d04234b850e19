/**
 The part of an etcd v2 key/value store that the lease lock uses, as the
 go-etcd client calls it: Create, CompareAndSwap guarded only by the previous
 value (previous index 0), CompareAndDelete, and lease expiry. A call may also
 fail in transit; `fault` carries that failure's message.
 */
module EtcdStore {
  import opened Wrappers

  const ErrorKeyNotFound: int := 100
  const ErrorCompareFailed: int := 101
  const ErrorNodeExist: int := 105

  /** An error from the store (`*etcd.EtcdError` with its code) or from the
      client before the store answered. */
  datatype Error = EtcdError(code: int) | ClientError(message: string)

  /** A stored value and its lease deadline in seconds; None when the value
      was written with TTL 0, which etcd keeps without a lease. */
  datatype Entry = Entry(value: string, expiresAt: Option<int>)

  function Deadline(now: int, ttl: nat): Option<int>
  {
    if ttl == 0 then None else Some(now + ttl)
  }

  /** The answer to one call and the store's contents after it. */
  datatype Reply = Reply(err: Option<Error>, entries: map<string, Entry>)

  function CreateReply(entries: map<string, Entry>, key: string, value: string, ttl: nat, now: int, fault: Option<string>)
    : Reply
  {
    if fault.Some? then Reply(Some(ClientError(fault.value)), entries)
    else if key in entries then Reply(Some(EtcdError(ErrorNodeExist)), entries)
    else Reply(None, entries[key := Entry(value, Deadline(now, ttl))])
  }

  function SwapReply(entries: map<string, Entry>, key: string, value: string, ttl: nat, prevValue: string, now: int, fault: Option<string>)
    : Reply
  {
    if fault.Some? then Reply(Some(ClientError(fault.value)), entries)
    else if key !in entries then Reply(Some(EtcdError(ErrorKeyNotFound)), entries)
    else if entries[key].value != prevValue then Reply(Some(EtcdError(ErrorCompareFailed)), entries)
    else Reply(None, entries[key := Entry(value, Deadline(now, ttl))])
  }

  function DeleteReply(entries: map<string, Entry>, key: string, prevValue: string, fault: Option<string>)
    : Reply
  {
    if fault.Some? then Reply(Some(ClientError(fault.value)), entries)
    else if key !in entries then Reply(Some(EtcdError(ErrorKeyNotFound)), entries)
    else if entries[key].value != prevValue then Reply(Some(EtcdError(ErrorCompareFailed)), entries)
    else Reply(None, entries - {key})
  }

  predicate IsLive(e: Entry, now: int)
  {
    e.expiresAt.None? || now < e.expiresAt.value
  }

  /** The store's contents once every lease that ended by `now` is gone. */
  function Unexpired(entries: map<string, Entry>, now: int): map<string, Entry>
  {
    map k | k in entries && IsLive(entries[k], now) :: entries[k]
  }

  /** The shared store, one object for every client. */
  class Store {
    var entries: map<string, Entry>

    constructor ()
      ensures entries == map[]
    {
      entries := map[];
    }

    /** Writes `value` under `key` unless the key exists (code 105). */
    method Create(key: string, value: string, ttl: nat, now: int, fault: Option<string>) returns (err: Option<Error>)
      modifies this
      ensures Reply(err, entries) == CreateReply(old(entries), key, value, ttl, now, fault)
    {
      if fault.Some? {
        err := Some(ClientError(fault.value));
      } else if key in entries {
        err := Some(EtcdError(ErrorNodeExist));
      } else {
        entries := entries[key := Entry(value, Deadline(now, ttl))];
        err := None;
      }
    }

    /** Replaces the value under `key` when it currently equals `prevValue`
        (code 101 otherwise, 100 when the key is absent), renewing its lease. */
    method CompareAndSwap(key: string, value: string, ttl: nat, prevValue: string, now: int, fault: Option<string>)
      returns (err: Option<Error>)
      modifies this
      ensures Reply(err, entries) == SwapReply(old(entries), key, value, ttl, prevValue, now, fault)
    {
      if fault.Some? {
        err := Some(ClientError(fault.value));
      } else if key !in entries {
        err := Some(EtcdError(ErrorKeyNotFound));
      } else if entries[key].value != prevValue {
        err := Some(EtcdError(ErrorCompareFailed));
      } else {
        entries := entries[key := Entry(value, Deadline(now, ttl))];
        err := None;
      }
    }

    /** Deletes `key` when its value equals `prevValue`. */
    method CompareAndDelete(key: string, prevValue: string, fault: Option<string>) returns (err: Option<Error>)
      modifies this
      ensures Reply(err, entries) == DeleteReply(old(entries), key, prevValue, fault)
    {
      if fault.Some? {
        err := Some(ClientError(fault.value));
      } else if key !in entries {
        err := Some(EtcdError(ErrorKeyNotFound));
      } else if entries[key].value != prevValue {
        err := Some(EtcdError(ErrorCompareFailed));
      } else {
        entries := entries - {key};
        err := None;
      }
    }

    /** Lease expiry: the store drops every key whose lease ended by `now`. */
    method Expire(now: int)
      modifies this
      ensures entries == Unexpired(old(entries), now)
    {
      entries := Unexpired(entries, now);
    }
  }
}
