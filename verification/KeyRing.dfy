/** The ring of Raft encryption keys (backend/raft_crypto.go). A key is its file name: the log index it was made at
    and a time stamp. Only the key that sealed something opens it. */
module KeyRing {
  import opened Wrappers

  datatype Key = Key(index: nat, stamp: nat)

  /** A stored value: empty data is never sealed. */
  datatype Stored = Empty | Sealed(key: Key, text: nat)

  function Opened(keys: seq<Key>, stored: Stored): Option<nat> {
    if stored.Sealed? && stored.key in keys then Some(stored.text) else None
  }

  class KeyRing {
    var active: Option<Key>
    /** Newest first. */
    var retired: seq<Key>

    constructor (key: Key)
      ensures Keys() == [key] && active.Some?
    {
      active, retired := Some(key), [];
    }

    /** All keys, newest first. */
    function Keys(): seq<Key>
      reads this
    {
      if active.Some? then [active.value] + retired else retired
    }

    method SetKeys(key: Key, others: seq<Key>)
      modifies this
      ensures active == Some(key) && Keys() == [key] + others
    {
      active, retired := Some(key), others;
    }

    method Rotate(key: Key)
      modifies this
      ensures active == Some(key) && Keys() == [key] + old(Keys())
    {
      if active.Some? {
        retired := [active.value] + retired;
      }
      active := Some(key);
    }

    method Wipe()
      modifies this
      ensures Keys() == []
    {
      active, retired := None, [];
    }

    method Encrypt(text: nat) returns (sealed: Option<Stored>)
      ensures sealed == if active.Some? then Some(Sealed(active.value, text)) else None
      ensures sealed.Some? ==> Opened(Keys(), sealed.value) == Some(text)
    {
      sealed := if active.Some? then Some(Sealed(active.value, text)) else None;
    }

    /** Tries the active key, then the retired ones: succeeds exactly when the sealing key is still in the ring. */
    method Decrypt(stored: Stored) returns (text: Option<nat>)
      requires stored.Sealed?
      ensures text == Opened(Keys(), stored)
    {
      if active.Some? && active.value == stored.key {
        return Some(stored.text);
      }
      for i := 0 to |retired|
        invariant stored.key !in retired[..i]
      {
        if retired[i] == stored.key {
          return Some(stored.text);
        }
      }
      text := None;
    }
  }
}
