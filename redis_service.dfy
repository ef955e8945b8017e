/** The guarded key-value client of `src/services/RedisService.ts`. The
    client keeps an `isConnected` flag that the connection events flip, and
    refuses every command while it is false. The server's contents are
    modelled as a map from keys to stored strings with their time to live;
    the server's own expiry of keys is not modelled. */
module Redis {
  import opened Wrappers
  import opened JsText

  const NotConnected: string := "Redis client is not connected"
  const InvalidKey: string := "Invalid Redis key"
  const InvalidValue: string := "Invalid Redis value"
  const UrlNotSet: string := "REDIS_URL environment variable is not set"

  /** A stored string and the time to live it was written with, if any. */
  datatype Stored = Stored(value: string, ttl: Option<int>)

  /** The client options the constructor derives from `REDIS_URL`. */
  datatype ClientOptions = ClientOptions(url: string, tls: bool)

  /** The constructor's check and options: `REDIS_URL` must be set and
      non-empty; TLS is on exactly for the "rediss://" scheme. */
  function ClientOptionsFor(redisUrl: Option<string>): (r: Result<ClientOptions>)
    ensures r.Err? <==> redisUrl.None? || redisUrl.value == ""
    ensures r.Err? ==> r.message == UrlNotSet
    ensures r.Ok? ==> r.value.url == redisUrl.value &&
                      (r.value.tls <==> StartsWith(redisUrl.value, "rediss://"))
  {
    if redisUrl.None? || redisUrl.value == "" then Err(UrlNotSet)
    else Ok(ClientOptions(redisUrl.value, StartsWith(redisUrl.value, "rediss://")))
  }

  lemma PlainSchemeHasNoTls()
    ensures ClientOptionsFor(Some("redis://cache:6379")).value.tls == false
    ensures ClientOptionsFor(Some("rediss://cache:6380")).value.tls == true
  {
    assert "redis://cache:6379"[5] != "rediss://"[5];
  }

  /** The truthiness test `if (ttlSeconds)`: present and not zero. */
  predicate TruthyTtl(ttl: Option<int>) {
    ttl.Some? && ttl.value != 0
  }

  /** What `connect` did. */
  datatype ConnectOutcome = AlreadyConnected | Dialled | DialFailed

  /** `findSimilarDocuments`: a placeholder that finds nothing. */
  function FindSimilarDocuments(embedding: seq<real>, limit: int): (r: seq<seq<real>>)
    ensures |r| == 0
  {
    []
  }

  class RedisService {
    const options: ClientOptions
    /** `isConnected`. */
    var connected: bool
    /** The server's contents as this client sees them. */
    var store: map<string, Stored>

    /** The client starts disconnected; `server` is what the server holds. */
    constructor(options: ClientOptions, server: map<string, Stored>)
      ensures this.options == options && !connected && store == server
    {
      this.options := options;
      connected := false;
      store := server;
    }

    /** `isClientConnected`. */
    function IsClientConnected(): bool
      reads this
    {
      connected
    }

    /** The 'connect' event handler. */
    method OnConnect()
      modifies this
      ensures connected && store == old(store)
    {
      connected := true;
    }

    /** The 'error' event handler. */
    method OnError()
      modifies this
      ensures !connected && store == old(store)
    {
      connected := false;
    }

    /** The 'end' event handler. */
    method OnEnd()
      modifies this
      ensures !connected && store == old(store)
    {
      connected := false;
    }

    /** `connect`: dials only when disconnected. A successful dial emits
        'connect'; a failed one emits 'error' and the promise rejects. */
    method Connect(dialOk: bool) returns (outcome: ConnectOutcome)
      modifies this
      ensures old(connected) ==> outcome == AlreadyConnected && connected
      ensures !old(connected) ==> outcome == (if dialOk then Dialled else DialFailed) && connected == dialOk
      ensures store == old(store)
    {
      if !connected {
        if dialOk {
          OnConnect();
          outcome := Dialled;
        } else {
          OnError();
          outcome := DialFailed;
        }
      } else {
        outcome := AlreadyConnected;
      }
    }

    /** `disconnect`: closes only when connected; closing emits 'end'. */
    method Disconnect() returns (closed: bool)
      modifies this
      ensures closed == old(connected)
      ensures !connected && store == old(store)
    {
      closed := connected;
      if connected {
        OnEnd();
      }
    }

    /** `get`: the stored string, `None` for a missing key. */
    method Get(key: string) returns (r: Result<Option<string>>)
      ensures !connected ==> r == Err(NotConnected)
      ensures connected ==> r == Ok(if key in store then Some(store[key].value) else None)
    {
      if !connected {
        return Err(NotConnected);
      }
      r := Ok(if key in store then Some(store[key].value) else None);
    }

    /** `set`: the connection is checked first, then the key, then the
        value; only then is the write made, with an expiry exactly when the
        ttl is truthy. */
    method Set(key: string, value: string, ttl: Option<int>) returns (r: Result<()>)
      modifies this
      ensures !old(connected) ==> r == Err(NotConnected)
      ensures old(connected) && key == "" ==> r == Err(InvalidKey)
      ensures old(connected) && key != "" && value == "" ==> r == Err(InvalidValue)
      ensures r.Err? ==> store == old(store)
      ensures r.Ok? <==> old(connected) && key != "" && value != ""
      ensures r.Ok? ==> store == old(store)[key := Stored(value, if TruthyTtl(ttl) then ttl else None)]
      ensures connected == old(connected)
    {
      if !connected {
        return Err(NotConnected);
      }
      if key == "" {
        return Err(InvalidKey);
      }
      if value == "" {
        return Err(InvalidValue);
      }
      store := store[key := Stored(value, if TruthyTtl(ttl) then ttl else None)];
      r := Ok(());
    }

    /** `delete`: removes the key, whether or not it was there. */
    method Delete(key: string) returns (r: Result<()>)
      modifies this
      ensures !old(connected) ==> r == Err(NotConnected) && store == old(store)
      ensures old(connected) ==> r == Ok(()) && store == old(store) - {key}
      ensures connected == old(connected)
    {
      if !connected {
        return Err(NotConnected);
      }
      store := store - {key};
      r := Ok(());
    }
  }

  /** A set followed by a get of the same key on a connected client reads
      the value back. */
  method SetThenGet(service: RedisService, key: string, value: string, ttl: Option<int>)
    returns (written: Result<()>, read: Result<Option<string>>)
    requires service.connected && key != "" && value != ""
    modifies service
    ensures written.Ok?
    ensures read == Ok(Some(value))
  {
    written := service.Set(key, value, ttl);
    assert service.connected && key in service.store && service.store[key].value == value;
    read := service.Get(key);
  }

  /** While disconnected, no command changes the server's contents. */
  method DisconnectedChangesNothing(service: RedisService, key: string, value: string, ttl: Option<int>)
    returns (results: seq<bool>)
    requires !service.connected
    modifies service
    ensures service.store == old(service.store) && |results| == 3
    ensures forall i :: 0 <= i < |results| ==> !results[i]
  {
    var g := service.Get(key);
    var s := service.Set(key, value, ttl);
    var d := service.Delete(key);
    results := [g.Ok?, s.Ok?, d.Ok?];
  }
}
