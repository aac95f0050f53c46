/** Cross-worker invalidation: the messages, and the bus object of one worker. */
module StatsBus {
  import opened Prelude
  import opened StatsCache

  // ---- one worker's bus ------------------------------------------------------------------

  /** A message on the channel after JSON.parse: what decodeInvalidation can tell apart. */
  datatype Raw =
    | Malformed
    | NoUser(origin: Option<string>)                 // u is null
    | NotANumber(origin: Option<string>)
    | ForUser(user: int, origin: Option<string>)

  datatype Invalidation = Invalidation(user: Option<int>, origin: Option<string>)

  function Encode(user: Option<int>, origin: string): Raw {
    if user.Some? then ForUser(user.value, Some(origin)) else NoUser(Some(origin))
  }

  function Decode(raw: Raw): Option<Invalidation> {
    match raw
    case Malformed => None
    case NotANumber(_) => None
    case NoUser(o) => Some(Invalidation(None, o))
    case ForUser(u, o) => Some(Invalidation(Some(u), o))
  }

  /** What one worker publishes, another worker decodes to the same user and origin. */
  lemma EncodedIsDecoded(user: Option<int>, origin: string)
    ensures Decode(Encode(user, origin)) == Some(Invalidation(user, Some(origin)))
  {
    match user
    case None =>
    case Some(u) =>
  }

  /** A worker acts on a message unless it is unreadable or its own. */
  predicate Obeyed(raw: Raw, mine: string) {
    Decode(raw).Some? && Decode(raw).value.origin != Some(mine)
  }

  /** A published invalidation is obeyed by every worker but its own, for the very user it was for. */
  lemma InvalidationReachesTheOthers(user: Option<int>, origin: string, mine: string)
    ensures Obeyed(Encode(user, origin), mine) <==> mine != origin
    ensures Obeyed(Encode(user, origin), mine) ==> Decode(Encode(user, origin)).value.user == user
  {
    EncodedIsDecoded(user, origin);
  }

  /** What happens to a publish: no transport, a synchronous throw, or handed over. */
  datatype Transport = Absent | Throws | HandsOver

  class Bus<V(!new)> {
    const cache: Cache<V>
    const origin: string
    var published: nat
    var received: nat
    var ignored: nat
    var publishErrors: nat

    constructor (cache: Cache<V>, origin: string)
      ensures this.cache == cache && this.origin == origin
      ensures published == received == ignored == publishErrors == 0
    {
      this.cache, this.origin := cache, origin;
      published, received, ignored, publishErrors := 0, 0, 0, 0;
    }

    /** Local first and unconditionally; then at most one message. */
    method Invalidate(user: Option<int>, transport: Transport) returns (sent: Option<Raw>)
      modifies this, cache
      ensures cache.entries == Left(old(cache.entries), user)
      ensures sent == if transport.HandsOver? then Some(Encode(user, origin)) else None
      ensures published == old(published) + (if transport.HandsOver? then 1 else 0)
      ensures publishErrors == old(publishErrors) + (if transport.Throws? then 1 else 0)
      ensures received == old(received) && ignored == old(ignored)
    {
      cache.InvalidateUser(user);
      match transport
      case Absent => return None;
      case Throws =>
        publishErrors := publishErrors + 1;
        return None;
      case HandsOver =>
        published := published + 1;
        return Some(Encode(user, origin));
    }

    /** A delivery only ever drops local entries: nothing is published, an echo or a bad message is ignored. */
    method OnMessage(raw: Raw) returns (acted: bool)
      modifies this, cache
      ensures acted <==> Obeyed(raw, origin)
      ensures acted <==> (raw.NoUser? || raw.ForUser?) && raw.origin != Some(origin)
      ensures cache.entries == if !acted then old(cache.entries)
                               else Left(old(cache.entries), if raw.ForUser? then Some(raw.user) else None)
      ensures published == old(published) && publishErrors == old(publishErrors)
      ensures received + ignored == old(received) + old(ignored) + 1 && (acted <==> received > old(received))
    {
      var msg := Decode(raw);
      if msg.None? {
        ignored := ignored + 1;
        return false;
      }
      if msg.value.origin.Some? && msg.value.origin.value == origin {
        ignored := ignored + 1;
        return false;
      }
      cache.InvalidateUser(msg.value.user);
      received := received + 1;
      return true;
    }
  }
}
