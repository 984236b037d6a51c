/**
 * The expiring credential store of utils/storage.py: a JSON file of entries
 * keyed by a random string, each with a client ID, a client secret and an
 * expiry time. Every load drops the entries that have expired and writes the
 * file back only when that dropped something.
 */
module Storage {
  import opened Wrappers

  /** One stored credential pair; `expiresAt` is `None` when the key is absent from the entry. */
  datatype Entry = Entry(clientId: string, clientSecret: string, expiresAt: Option<real>)

  type Store = map<string, Entry>

  /** `v.get('expires_at', 0)`. */
  function ExpiresAt(e: Entry): real {
    match e.expiresAt
    case None => 0.0
    case Some(t) => t
  }

  /** An entry survives a clean at `now` when it expires strictly later. */
  predicate Live(e: Entry, now: real) {
    ExpiresAt(e) > now
  }

  /** Lines 20-21 and 45-46: the entries still live at `now`, with their values untouched. */
  function Clean(store: Store, now: real): (r: Store)
    ensures forall k :: k in r <==> k in store && ExpiresAt(store[k]) > now
    ensures forall k :: k in r ==> r[k] == store[k]
    ensures forall k :: k in store && store[k].expiresAt.None? && now >= 0.0 ==> k !in r
  {
    map k | k in store && Live(store[k], now) :: store[k]
  }

  /** Cleaning what was just cleaned at the same time removes nothing. */
  lemma CleanIdempotent(store: Store, now: real)
    ensures Clean(Clean(store, now), now) == Clean(store, now)
  {
    var once := Clean(store, now);
    assert Clean(once, now).Keys == once.Keys;
  }

  /** A later clean keeps a part of what an earlier one kept, and cleaning twice is the same as
      cleaning once at the later time. */
  lemma CleanMonotone(store: Store, earlier: real, later: real)
    requires earlier <= later
    ensures Clean(store, later).Keys <= Clean(store, earlier).Keys
    ensures Clean(Clean(store, earlier), later) == Clean(store, later)
  {
    var twice := Clean(Clean(store, earlier), later);
    assert twice.Keys == Clean(store, later).Keys;
  }

  /** A sub-map of `m` with all of `m`'s keys is `m`. */
  lemma SubMapSameSize(small: Store, m: Store)
    requires forall k :: k in small ==> k in m && small[k] == m[k]
    ensures |small| == |m| <==> small == m
  {
    if small != m {
      var k :| k in m && k !in small;
      assert small.Keys <= m.Keys - {k};
      SubsetCardinality(small.Keys, m.Keys - {k});
      assert |m.Keys - {k}| == |m.Keys| - 1;
    }
  }

  /** A subset has at most as many elements. */
  lemma {:induction false} SubsetCardinality<T>(a: set<T>, b: set<T>)
    requires a <= b
    ensures |a| <= |b|
    decreases |b|
  {
    if a != {} {
      var x :| x in a;
      SubsetCardinality(a - {x}, b - {x});
    }
  }

  /** Lines 23 and 47: the size test detects exactly whether cleaning dropped an entry. */
  lemma CleanShrinksIff(store: Store, now: real)
    ensures |Clean(store, now)| == |store| <==> Clean(store, now) == store
  {
    SubMapSameSize(Clean(store, now), store);
  }

  // ---------------------------------------------------------------------------
  // The file

  /** The store file: absent, present but not readable as a store, or holding a store. */
  datatype FileState = Missing | Unreadable | Stored(data: Store)

  /** Lines 13-29: what `load_temp_storage` returns; a missing file or any error gives `{}`. */
  function Loaded(file: FileState, now: real): (r: Store)
    ensures !file.Stored? ==> r == map[]
    ensures file.Stored? ==> r == Clean(file.data, now)
  {
    match file
    case Stored(data) => Clean(data, now)
    case _ => map[]
  }

  /** Lines 23-24: the writes one load makes, none unless an entry expired. */
  function LoadWrites(file: FileState, now: real): (r: seq<Store>)
    ensures |r| <= 1
    ensures r != [] <==> file.Stored? && Clean(file.data, now) != file.data
  {
    CleanShrinksIffFile(file, now);
    if file.Stored? && |Clean(file.data, now)| != |file.data| then [Clean(file.data, now)] else []
  }

  lemma CleanShrinksIffFile(file: FileState, now: real)
    ensures file.Stored? ==> (|Clean(file.data, now)| == |file.data| <==> Clean(file.data, now) == file.data)
  {
    if file.Stored? {
      CleanShrinksIff(file.data, now);
    }
  }

  /** The file after one load. */
  function AfterLoad(file: FileState, now: real): (r: FileState)
    ensures r.Stored? ==> r == Stored(Loaded(file, now))
    ensures file.Stored? ==> r == Stored(Loaded(file, now))
    ensures !file.Stored? ==> r == file
  {
    if LoadWrites(file, now) != [] then Stored(Loaded(file, now)) else file
  }

  /** A second load at the same time returns the same store and writes nothing. */
  lemma LoadTwice(file: FileState, now: real)
    ensures Loaded(AfterLoad(file, now), now) == Loaded(file, now)
    ensures LoadWrites(AfterLoad(file, now), now) == []
  {
    if file.Stored? {
      CleanIdempotent(file.data, now);
    }
  }

  /** The store file and the record of every write made to it. */
  class TempStorage {
    var file: FileState
    var saves: seq<Store>

    constructor(initial: FileState)
      ensures file == initial && saves == []
    {
      file := initial;
      saves := [];
    }

    /** Lines 32-38: `save_temp_storage` replaces the file's contents. */
    method Save(data: Store)
      modifies this
      ensures file == Stored(data) && saves == old(saves) + [data]
    {
      file := Stored(data);
      saves := saves + [data];
    }

    /** Lines 13-29: read, drop what expired at `now`, write back only if that dropped something. */
    method Load(now: real) returns (data: Store)
      modifies this
      ensures data == Loaded(old(file), now)
      ensures file == AfterLoad(old(file), now)
      ensures saves == old(saves) + LoadWrites(old(file), now)
    {
      match file
      case Stored(stored) =>
        var cleaned := Clean(stored, now);
        if |cleaned| != |stored| {
          Save(cleaned);
        }
        data := cleaned;
      case _ =>
        data := map[];
    }

    /** Lines 41-49: load at `loadNow`, then filter again at `now` and write back if that dropped
        something more. */
    method CleanTempStorage(loadNow: real, now: real) returns (cleaned: Store)
      modifies this
      ensures cleaned == Clean(Loaded(old(file), loadNow), now)
      ensures file == (if |cleaned| != |Loaded(old(file), loadNow)| then Stored(cleaned) else AfterLoad(old(file), loadNow))
      ensures saves == old(saves) + LoadWrites(old(file), loadNow)
                       + (if |cleaned| != |Loaded(old(file), loadNow)| then [cleaned] else [])
    {
      var storage := Load(loadNow);
      cleaned := Clean(storage, now);
      if |cleaned| != |storage| {
        Save(cleaned);
      }
    }
  }

  /** With one clock reading for the whole of `clean_temp_storage`, its second filter never
      writes: the load has already dropped everything that expired. */
  lemma CleanAfterLoadWritesNothing(file: FileState, now: real)
    ensures |Clean(Loaded(file, now), now)| == |Loaded(file, now)|
  {
    if file.Stored? {
      CleanIdempotent(file.data, now);
    }
  }
}
