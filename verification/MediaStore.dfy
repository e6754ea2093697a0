/**
 The bridge's store of voice notes: bounded in bytes, oldest out first, gone after a
 quarter of an hour.
 */
module MediaStore {
  import opened Wrappers

  const MEDIA_TTL_MS: int := 900_000
  const CAPACITY: nat := 67_108_864

  datatype Media = Media(bytes: string, contentType: string, expiresAt: int)

  /** One entry of an insertion-ordered map. */
  datatype Entry = Entry(token: string, media: Media)

  function Total(entries: seq<Entry>): nat {
    if |entries| == 0 then 0 else |entries[0].media.bytes| + Total(entries[1..])
  }

  function Live(entries: seq<Entry>, now: int): seq<Entry> {
    if |entries| == 0 then []
    else (if entries[0].media.expiresAt > now then [entries[0]] else []) + Live(entries[1..], now)
  }

  /** How many of the oldest must go so that `length` more bytes fit, or all of them. */
  function Evictions(entries: seq<Entry>, length: nat): (k: nat)
    ensures k <= |entries|
  {
    if |entries| == 0 || Total(entries) + length <= CAPACITY then 0 else 1 + Evictions(entries[1..], length)
  }

  function IndexOf(entries: seq<Entry>, token: string): (i: nat)
    ensures i <= |entries|
    ensures i < |entries| ==> entries[i].token == token
    ensures forall j | 0 <= j < i :: entries[j].token != token
  {
    if |entries| == 0 || entries[0].token == token then 0
    else
      var i := 1 + IndexOf(entries[1..], token);
      assert forall j | 1 <= j < i :: entries[j].token == entries[1..][j - 1].token;
      i
  }

  predicate Distinct(entries: seq<Entry>) {
    forall i, j | 0 <= i < j < |entries| :: entries[i].token != entries[j].token
  }

  function Without(entries: seq<Entry>, i: nat): seq<Entry>
    requires i < |entries|
  {
    entries[..i] + entries[i + 1..]
  }

  /** The form of 32 random bytes in base64url. */
  predicate TokenShape(token: string) {
    |token| == 43 && forall i | 0 <= i < 43 :: 'A' <= token[i] <= 'Z' || 'a' <= token[i] <= 'z'
                                              || '0' <= token[i] <= '9' || token[i] == '_' || token[i] == '-'
  }

  function Later(a: int, b: int): int {
    if a < b then b else a
  }

  predicate Holds(entries: seq<Entry>, token: string) {
    exists i | 0 <= i < |entries| :: entries[i].token == token
  }

  /** Every note ever stored is here unchanged, was evicted for room, or had expired by `latest`. */
  ghost predicate Accounts(entries: seq<Entry>, issued: map<string, Media>, evicted: set<string>, latest: int) {
    && Distinct(entries)
    && (forall i | 0 <= i < |entries| :: entries[i].token in issued && issued[entries[i].token] == entries[i].media)
    && (forall i | 0 <= i < |entries| :: entries[i].token !in evicted)
    && evicted <= issued.Keys
    && (forall token | token in issued :: Accounted(entries, issued, evicted, latest, token))
    && (forall token | token in issued :: TokenShape(token))
  }

  ghost predicate Accounted(entries: seq<Entry>, issued: map<string, Media>, evicted: set<string>, latest: int, token: string)
    requires token in issued
  {
    Holds(entries, token) || token in evicted || issued[token].expiresAt <= latest
  }

  datatype PutResult = Stored(token: string) | TooLarge

  class MediaStore {
    var entries: seq<Entry>
    var size: int

    ghost var issued: map<string, Media>
    ghost var evicted: set<string>
    ghost var latest: int

    ghost predicate Valid()
      reads this
    {
      size == Total(entries) && size <= CAPACITY && Accounts(entries, issued, evicted, latest)
    }

    constructor (now: int)
      ensures Valid() && entries == [] && issued == map[] && evicted == {} && latest == now
    {
      entries, size, issued, evicted, latest := [], 0, map[], {}, now;
    }

    /** `delete`. */
    method Delete(token: string)
      requires Distinct(entries)
      modifies this`entries, this`size
      ensures var i := IndexOf(old(entries), token);
              if i < |old(entries)| then
                entries == Without(old(entries), i) && size == old(size) - |old(entries)[i].media.bytes|
              else entries == old(entries) && size == old(size)
    {
      var i := IndexOf(entries, token);
      if i < |entries| {
        size := size - |entries[i].media.bytes|;
        entries := Without(entries, i);
      }
    }

    /** `prune`: a pass over the map in insertion order, deleting on the way. */
    method Prune(now: int)
      requires Distinct(entries) && size == Total(entries)
      modifies this`entries, this`size
      ensures entries == Live(old(entries), now) && size == Total(entries)
    {
      var i := 0;
      while i < |entries|
        invariant i <= |entries| && Distinct(entries) && size == Total(entries)
        invariant entries[..i] + Live(entries[i..], now) == Live(old(entries), now)
        decreases |entries| - i
      {
        ghost var before := entries;
        var entry := entries[i];
        if entry.media.expiresAt <= now {
          Delete(entry.token);
          PassDeletes(before, i);
        } else {
          PassKeeps(before, i, now);
          i := i + 1;
        }
      }
      assert entries[..i] == entries && entries[i..] == [];
    }

    method EvictOldest()
      requires size == Total(entries) && Accounts(entries, issued, evicted, latest) && |entries| > 0
      modifies this`entries, this`size, this`evicted
      ensures size == Total(entries) && Accounts(entries, issued, evicted, latest)
      ensures entries == old(entries)[1..] && evicted == old(evicted) + {old(entries)[0].token}
    {
      ghost var before := entries;
      OldestIsFirst(before);
      Delete(entries[0].token);
      evicted := evicted + {before[0].token};
      EvictionAccounts(before, issued, old(evicted), latest, entries, evicted);
    }

    /** The oldest go, one by one, until `length` more bytes fit or nothing is left. */
    method MakeRoom(length: nat)
      requires size == Total(entries) && Accounts(entries, issued, evicted, latest)
      modifies this`entries, this`size, this`evicted
      ensures size == Total(entries) && Accounts(entries, issued, evicted, latest)
      ensures entries == old(entries)[Evictions(old(entries), length)..]
      ensures size + length <= CAPACITY || entries == []
    {
      ghost var gone := 0;
      while size + length > CAPACITY && |entries| > 0
        invariant gone <= |old(entries)| && entries == old(entries)[gone..] && size == Total(entries)
        invariant gone + Evictions(entries, length) == Evictions(old(entries), length)
        invariant Accounts(entries, issued, evicted, latest)
        decreases |entries|
      {
        EvictOldest();
        gone := gone + 1;
      }
    }

    /**
     `put`, given the random token: drop what has expired, then the fewest of the oldest that
     make room, then store. A note that can never fit still drops everything.
     */
    method Put(bytes: string, contentType: string, token: string, now: int) returns (r: PutResult)
      requires Valid() && TokenShape(token) && token !in issued
      modifies this
      ensures Valid() && latest == Later(old(latest), now)
      ensures var live := Live(old(entries), now);
              var kept := live[Evictions(live, |bytes|)..];
              if |bytes| > CAPACITY then r == TooLarge && entries == [] && issued == old(issued)
              else r == Stored(token)
                   && entries == kept + [Entry(token, Media(bytes, contentType, now + MEDIA_TTL_MS))]
                   && issued == old(issued)[token := Media(bytes, contentType, now + MEDIA_TTL_MS)]
    {
      Prune(now);
      LiveAccounts(old(entries), issued, evicted, latest, now);
      latest := Later(latest, now);
      MakeRoom(|bytes|);
      if |bytes| > CAPACITY { return TooLarge; }
      var entry := Entry(token, Media(bytes, contentType, now + MEDIA_TTL_MS));
      AdditionAccounts(entries, issued, evicted, latest, token, entry.media);
      TotalSnoc(entries, entry);
      entries := entries + [entry];
      size := size + |bytes|;
      issued := issued[token := entry.media];
      r := Stored(token);
    }

    /**
     `get`: what is returned was stored, just so, and has been neither evicted nor outlived;
     and unless the clock has been set back, whatever is so is returned.
     */
    method Get(token: string, now: int) returns (r: Option<Media>)
      requires Valid()
      modifies this
      ensures Valid() && latest == Later(old(latest), now) && issued == old(issued) && evicted == old(evicted)
      ensures r.Some? ==> token in issued && token !in evicted && issued[token].expiresAt > now && r.value == issued[token]
      ensures now >= old(latest) && token in issued && token !in evicted && issued[token].expiresAt > now ==> r.Some?
      ensures var i := IndexOf(old(entries), token);
              entries == if i < |old(entries)| && old(entries)[i].media.expiresAt <= now then Without(old(entries), i)
                         else old(entries)
    {
      LaterAccounts(entries, issued, evicted, latest, Later(latest, now));
      latest := Later(latest, now);
      var i := IndexOf(entries, token);
      assert i == |entries| && token in issued ==> Accounted(entries, issued, evicted, latest, token);
      if !TokenShape(token) { return None; }
      if i == |entries| { return None; }
      var media := entries[i].media;
      if media.expiresAt <= now {
        ExpiryAccounts(entries, issued, evicted, latest, i);
        TotalWithout(entries, i);
        Delete(token);
        return None;
      }
      r := Some(media);
    }
  }

  // ----- Totals -----

  lemma {:induction false} TotalWithout(entries: seq<Entry>, i: nat)
    requires i < |entries|
    ensures Total(Without(entries, i)) == Total(entries) - |entries[i].media.bytes|
    decreases i
  {
    if i == 0 {
      assert Without(entries, 0) == entries[1..];
    } else {
      TotalWithout(entries[1..], i - 1);
      assert Without(entries, i)[1..] == Without(entries[1..], i - 1);
    }
  }

  lemma PassDeletes(entries: seq<Entry>, i: nat)
    requires i < |entries| && Distinct(entries)
    ensures IndexOf(entries, entries[i].token) == i
    ensures var rest := Without(entries, i);
            Distinct(rest) && rest[..i] == entries[..i] && rest[i..] == entries[i + 1..]
            && Total(rest) == Total(entries) - |entries[i].media.bytes|
    ensures entries[i..][1..] == entries[i + 1..]
  {
    TotalWithout(entries, i);
  }

  lemma PassKeeps(entries: seq<Entry>, i: nat, now: int)
    requires i < |entries| && entries[i].media.expiresAt > now
    ensures entries[..i + 1] + Live(entries[i + 1..], now) == entries[..i] + Live(entries[i..], now)
  {
    assert entries[i..][1..] == entries[i + 1..];
    assert entries[..i + 1] == entries[..i] + [entries[i]];
  }

  lemma {:induction false} TotalSnoc(entries: seq<Entry>, entry: Entry)
    ensures Total(entries + [entry]) == Total(entries) + |entry.media.bytes|
    decreases |entries|
  {
    if |entries| == 0 {
      assert entries + [entry] == [entry];
    } else {
      assert (entries + [entry])[1..] == entries[1..] + [entry];
      TotalSnoc(entries[1..], entry);
    }
  }

  lemma {:induction false} SuffixTotal(entries: seq<Entry>, k: nat)
    requires k <= |entries|
    ensures Total(entries[k..]) <= Total(entries)
    decreases k
  {
    if k == 0 {
      assert entries[0..] == entries;
    } else {
      SuffixTotal(entries[1..], k - 1);
      assert entries[1..][k - 1..] == entries[k..];
    }
  }

  /** What is evicted is the shortest oldest part that makes room. */
  lemma {:induction false} EvictionsLeast(entries: seq<Entry>, length: nat, k: nat)
    requires length <= CAPACITY && k <= |entries|
    ensures k >= Evictions(entries, length) <==> Total(entries[k..]) + length <= CAPACITY
    decreases |entries|
  {
    if Total(entries) + length <= CAPACITY {
      SuffixTotal(entries, k);
    } else if k == 0 {
      assert entries[0..] == entries;
    } else {
      EvictionsLeast(entries[1..], length, k - 1);
      assert entries[1..][k - 1..] == entries[k..];
    }
  }

  // ----- Accounts -----

  lemma {:induction false} LiveIsPart(entries: seq<Entry>, now: int, i: nat) returns (j: nat)
    requires i < |Live(entries, now)|
    ensures i <= j < |entries| && entries[j] == Live(entries, now)[i] && entries[j].media.expiresAt > now
    ensures i > 0 && |entries| > 0 && entries[0].media.expiresAt > now ==> j > 0
    decreases |entries|
  {
    if entries[0].media.expiresAt > now && i == 0 {
      j := 0;
    } else {
      var k := LiveIsPart(entries[1..], now, if entries[0].media.expiresAt > now then i - 1 else i);
      j := k + 1;
    }
  }

  lemma IndexHeld(entries: seq<Entry>, token: string) returns (i: nat)
    requires Holds(entries, token)
    ensures i < |entries| && entries[i].token == token
  {
    i :| 0 <= i < |entries| && entries[i].token == token;
  }

  lemma {:induction false} LiveKeeps(entries: seq<Entry>, now: int, token: string)
    ensures Holds(Live(entries, now), token) <==>
              exists i | 0 <= i < |entries| :: entries[i].token == token && entries[i].media.expiresAt > now
    decreases |entries|
  {
    if |entries| > 0 {
      var rest, live := entries[1..], Live(entries[1..], now);
      LiveKeeps(rest, now, token);
      var all := Live(entries, now);
      if Holds(all, token) {
        var i := IndexHeld(all, token);
        var j := LiveIsPart(entries, now, i);
      }
      if i :| 0 <= i < |entries| && entries[i].token == token && entries[i].media.expiresAt > now {
        if i == 0 {
          assert all[0].token == token;
        } else {
          assert rest[i - 1].token == token;
          var j := IndexHeld(live, token);
          assert all[if entries[0].media.expiresAt > now then j + 1 else j].token == token;
        }
      }
    }
  }

  lemma {:induction false} LiveIsDistinct(entries: seq<Entry>, now: int)
    requires Distinct(entries)
    ensures Distinct(Live(entries, now))
    decreases |entries|
  {
    if |entries| > 0 {
      LiveIsDistinct(entries[1..], now);
      LiveKeeps(entries[1..], now, entries[0].token);
    }
  }

  lemma LiveAccounts(entries: seq<Entry>, issued: map<string, Media>, evicted: set<string>, latest: int, now: int)
    requires Accounts(entries, issued, evicted, latest)
    ensures Accounts(Live(entries, now), issued, evicted, Later(latest, now))
  {
    var live := Live(entries, now);
    LiveIsDistinct(entries, now);
    forall i | 0 <= i < |live|
      ensures live[i].token in issued && issued[live[i].token] == live[i].media && live[i].token !in evicted
    {
      var j := LiveIsPart(entries, now, i);
    }
    forall token | token in issued
      ensures Accounted(live, issued, evicted, Later(latest, now), token)
    {
      assert Accounted(entries, issued, evicted, latest, token);
      LiveKeeps(entries, now, token);
    }
  }

  lemma LaterAccounts(entries: seq<Entry>, issued: map<string, Media>, evicted: set<string>, latest: int, now: int)
    requires Accounts(entries, issued, evicted, latest) && now >= latest
    ensures Accounts(entries, issued, evicted, now)
  {
    forall token | token in issued
      ensures Accounted(entries, issued, evicted, now, token)
    {
      assert Accounted(entries, issued, evicted, latest, token);
    }
  }

  lemma HoldsWithout(entries: seq<Entry>, i: nat, token: string)
    requires i < |entries| && Holds(entries, token) && entries[i].token != token
    ensures Holds(Without(entries, i), token)
  {
    var j :| 0 <= j < |entries| && entries[j].token == token;
    assert Without(entries, i)[if j < i then j else j - 1].token == token;
  }

  lemma RemovalAccounts(entries: seq<Entry>, issued: map<string, Media>, evicted: set<string>, latest: int,
                        i: nat, out: set<string>)
    requires Accounts(entries, issued, evicted, latest) && i < |entries|
    requires out == evicted || out == evicted + {entries[i].token}
    requires out == evicted ==> entries[i].media.expiresAt <= latest
    ensures Accounts(Without(entries, i), issued, out, latest)
  {
    var rest := Without(entries, i);
    assert forall j | 0 <= j < |rest| :: rest[j] == entries[if j < i then j else j + 1];
    forall token | token in issued
      ensures Accounted(rest, issued, out, latest, token)
    {
      assert Accounted(entries, issued, evicted, latest, token);
      if Holds(entries, token) && token != entries[i].token { HoldsWithout(entries, i, token); }
    }
  }

  lemma OldestIsFirst(entries: seq<Entry>)
    requires |entries| > 0
    ensures Without(entries, 0) == entries[1..] && IndexOf(entries, entries[0].token) == 0
    ensures Total(entries[1..]) == Total(entries) - |entries[0].media.bytes|
  {}

  lemma EvictionAccounts(entries: seq<Entry>, issued: map<string, Media>, evicted: set<string>, latest: int,
                         rest: seq<Entry>, more: set<string>)
    requires Accounts(entries, issued, evicted, latest) && |entries| > 0
    requires rest == entries[1..] && more == evicted + {entries[0].token}
    ensures Accounts(rest, issued, more, latest)
  {
    OldestIsFirst(entries);
    RemovalAccounts(entries, issued, evicted, latest, 0, more);
  }

  lemma ExpiryAccounts(entries: seq<Entry>, issued: map<string, Media>, evicted: set<string>, latest: int, i: nat)
    requires Accounts(entries, issued, evicted, latest) && i < |entries| && entries[i].media.expiresAt <= latest
    ensures Accounts(Without(entries, i), issued, evicted, latest)
  {
    RemovalAccounts(entries, issued, evicted, latest, i, evicted);
  }

  lemma AdditionAccounts(entries: seq<Entry>, issued: map<string, Media>, evicted: set<string>, latest: int,
                         token: string, media: Media)
    requires Accounts(entries, issued, evicted, latest) && token !in issued && TokenShape(token)
    ensures Accounts(entries + [Entry(token, media)], issued[token := media], evicted, latest)
  {
    var all, more := entries + [Entry(token, media)], issued[token := media];
    forall t | t in more
      ensures Accounted(all, more, evicted, latest, t)
    {
      if t == token {
        assert all[|entries|].token == token;
      } else {
        assert Accounted(entries, issued, evicted, latest, t);
        if Holds(entries, t) {
          var j :| 0 <= j < |entries| && entries[j].token == t;
          assert all[j].token == t;
        }
      }
    }
  }
}
