/**
  The session-scoped persistence of src/utils/storage.ts. One snapshot of
  the open records lives under a fixed key of an IndexedDB store, tagged
  with an id kept in the tab's sessionStorage, so a snapshot is only ever
  restored into the tab that wrote it. The two stores are fields of a
  class; which storage calls throw is given by parameters, and so is the
  time-and-random stamp a new session id is made from.
*/
module Storage {
  import opened Wrappers
  import opened Document

  /** The IndexedDB key of the snapshot. */
  const StorageKey: string := "documentReaderState"

  /** The sessionStorage key of the session id. */
  const SessionKey: string := "documentReaderSession"

  /** The error name on which saving clears the store and tries once more. */
  const QuotaExceeded: string := "QuotaExceededError"

  /**
    `SavedState`. The tab is optional because restoring treats a missing
    or empty `activeTab` as "write".
  */
  datatype SavedState = SavedState(files: seq<Doc>, activeFileId: string, activeTab: Option<Tab>, sessionId: string)

  /** An exception thrown by a storage call, by its error name. */
  datatype StorageError = StorageError(name: string)

  /** How `saveState` ends: resolved, or rejected with an error. */
  datatype SaveOutcome = Saved | SaveFailed(error: StorageError)

  /** `files.map(({ rawData, ...file }) => file)`. */
  function StripRaw(files: seq<Doc>): (r: seq<Doc>)
    ensures |r| == |files|
    ensures forall i :: 0 <= i < |files| ==>
      r[i].rawData.None? && r[i].id == files[i].id && r[i].name == files[i].name
      && r[i].content == files[i].content && r[i].fileType == files[i].fileType
  {
    seq(|files|, i requires 0 <= i < |files| => files[i].(rawData := None))
  }

  /** The value `saveState` writes. */
  function Snapshot(files: seq<Doc>, activeFileId: string, activeTab: Tab, sessionId: string): SavedState {
    SavedState(StripRaw(files), activeFileId, Some(activeTab), sessionId)
  }

  /** The session id `getSessionId` returns: the stored one unless it is missing or empty, else a new one. */
  function SessionIdFor(slot: Option<string>, stamp: string): (id: string)
    ensures id != ""
    ensures slot.Some? && slot.value != "" ==> id == slot.value
    ensures !(slot.Some? && slot.value != "") ==> id == "session_" + stamp
  {
    if slot.Some? && slot.value != "" then slot.value else "session_" + stamp
  }

  /**
    The store after `saveState` and how it ends, given what the first
    `setItem`, the `clear` and the second `setItem` throw (`None`: no error).
  */
  function SaveEffect(db: map<string, SavedState>, snap: SavedState,
                      firstWrite: Option<StorageError>, clearError: Option<StorageError>,
                      retryWrite: Option<StorageError>): (map<string, SavedState>, SaveOutcome)
  {
    match firstWrite
    case None => (db[StorageKey := snap], Saved)
    case Some(e) =>
      if e.name != QuotaExceeded then (db, SaveFailed(e))
      else match clearError
        case Some(c) => (db, SaveFailed(c))
        case None =>
          match retryWrite
          case None => (map[StorageKey := snap], Saved)
          case Some(r) => (map[], SaveFailed(r))
  }

  /**
    The store after `loadState` and what it returns, given whether reading
    and removing the key throw.
  */
  function LoadEffect(db: map<string, SavedState>, sessionId: string, readFails: bool, removeFails: bool)
    : (map<string, SavedState>, Option<SavedState>)
  {
    if readFails || StorageKey !in db then (db, None)
    else if db[StorageKey].sessionId == sessionId then (db, Some(db[StorageKey]))
    else if removeFails then (db, None)
    else (db - {StorageKey}, None)
  }

  /** The store after `cleanup` for the session id the page captured when it loaded. */
  function CleanupEffect(db: map<string, SavedState>, sessionId: string, readFails: bool, removeFails: bool)
    : map<string, SavedState>
  {
    if !readFails && !removeFails && StorageKey in db && db[StorageKey].sessionId == sessionId
    then db - {StorageKey} else db
  }

  /** A save that resolves leaves exactly the snapshot under the key, and a load in the same session returns it. */
  lemma SaveThenLoad(db: map<string, SavedState>, snap: SavedState,
                     firstWrite: Option<StorageError>, clearError: Option<StorageError>,
                     retryWrite: Option<StorageError>, removeFails: bool)
    requires SaveEffect(db, snap, firstWrite, clearError, retryWrite).1 == Saved
    ensures var after := SaveEffect(db, snap, firstWrite, clearError, retryWrite).0;
      StorageKey in after && after[StorageKey] == snap
      && LoadEffect(after, snap.sessionId, false, removeFails) == (after, Some(snap))
  {
  }

  /** A failed save never leaves a new snapshot: the store is as it was, or cleared when the retry failed. */
  lemma FailedSaveWritesNothing(db: map<string, SavedState>, snap: SavedState,
                                firstWrite: Option<StorageError>, clearError: Option<StorageError>,
                                retryWrite: Option<StorageError>)
    requires SaveEffect(db, snap, firstWrite, clearError, retryWrite).1.SaveFailed?
    ensures var after := SaveEffect(db, snap, firstWrite, clearError, retryWrite).0;
      after == db || after == map[]
    ensures firstWrite.Some? && firstWrite.value.name != QuotaExceeded ==>
      SaveEffect(db, snap, firstWrite, clearError, retryWrite) == (db, SaveFailed(firstWrite.value))
  {
  }

  /**
    On a quota error the store is cleared and the same snapshot written once
    more: a failed clear is rethrown with the store as it was, a successful
    retry leaves only the snapshot, and a failed retry is rethrown with the
    store left empty.
  */
  lemma QuotaErrorClearsAndRetries(db: map<string, SavedState>, snap: SavedState,
                                   e: StorageError, clearError: Option<StorageError>,
                                   retryWrite: Option<StorageError>)
    requires e.name == QuotaExceeded
    ensures clearError.Some? ==>
      SaveEffect(db, snap, Some(e), clearError, retryWrite) == (db, SaveFailed(clearError.value))
    ensures clearError.None? && retryWrite.None? ==>
      SaveEffect(db, snap, Some(e), clearError, retryWrite) == (map[StorageKey := snap], Saved)
    ensures clearError.None? && retryWrite.Some? ==>
      SaveEffect(db, snap, Some(e), clearError, retryWrite) == (map[], SaveFailed(retryWrite.value))
  {
  }

  /** Loading returns a snapshot exactly when one of this session is stored and can be read; it never writes one. */
  lemma LoadReturnsOnlyOwnSession(db: map<string, SavedState>, sessionId: string, readFails: bool, removeFails: bool)
    ensures var (after, r) := LoadEffect(db, sessionId, readFails, removeFails);
      (r.Some? <==> !readFails && StorageKey in db && db[StorageKey].sessionId == sessionId)
      && (r.Some? ==> r.value == db[StorageKey] && after == db)
      && (StorageKey in after ==> StorageKey in db && after[StorageKey] == db[StorageKey])
      && (!readFails && !removeFails && StorageKey in db && db[StorageKey].sessionId != sessionId ==> StorageKey !in after)
  {
  }

  /** Cleanup removes only this session's snapshot and touches no other key. */
  lemma CleanupIsGuarded(db: map<string, SavedState>, sessionId: string, readFails: bool, removeFails: bool)
    ensures var after := CleanupEffect(db, sessionId, readFails, removeFails);
      (forall k :: k in db && k != StorageKey ==> k in after && after[k] == db[k])
      && (StorageKey in db && db[StorageKey].sessionId != sessionId ==> after == db)
      && (StorageKey in after ==> after[StorageKey] == db[StorageKey])
  {
  }

  /** The saved records are the open ones in the same order, without raw data; saving twice gives the same records. */
  lemma StripRawIdempotent(files: seq<Doc>)
    ensures StripRaw(StripRaw(files)) == StripRaw(files)
  {
    var once := StripRaw(files);
    assert forall i :: 0 <= i < |files| ==> StripRaw(once)[i] == once[i];
  }

  /** The tab's sessionStorage slot and the IndexedDB store. */
  class Persistence {
    var sessionSlot: Option<string>
    var db: map<string, SavedState>

    constructor(sessionSlot0: Option<string>, db0: map<string, SavedState>)
      ensures sessionSlot == sessionSlot0 && db == db0
    {
      sessionSlot := sessionSlot0;
      db := db0;
    }

    /** `getSessionId`: reuses a stored non-empty id, else stores and returns a new one. */
    method GetSessionId(stamp: string) returns (id: string)
      modifies this
      ensures id == SessionIdFor(old(sessionSlot), stamp)
      ensures sessionSlot == Some(id)
      ensures db == old(db)
    {
      if sessionSlot.Some? && sessionSlot.value != "" {
        id := sessionSlot.value;
        return;
      }
      id := "session_" + stamp;
      sessionSlot := Some(id);
    }

    /**
      `saveState`: writes the snapshot under the key; on QuotaExceededError
      clears the whole store and writes once more, rethrowing if that fails;
      any other error is rethrown at once.
    */
    method SaveState(files: seq<Doc>, activeFileId: string, activeTab: Tab, stamp: string,
                     firstWrite: Option<StorageError>, clearError: Option<StorageError>,
                     retryWrite: Option<StorageError>) returns (outcome: SaveOutcome)
      modifies this
      ensures sessionSlot == Some(SessionIdFor(old(sessionSlot), stamp))
      ensures (db, outcome) == SaveEffect(old(db), Snapshot(files, activeFileId, activeTab, SessionIdFor(old(sessionSlot), stamp)),
                                         firstWrite, clearError, retryWrite)
    {
      var sessionId := GetSessionId(stamp);
      var stateToSave := Snapshot(files, activeFileId, activeTab, sessionId);
      if firstWrite.None? {
        db := db[StorageKey := stateToSave];
        return Saved;
      }
      var error := firstWrite.value;
      if error.name != QuotaExceeded {
        return SaveFailed(error);
      }
      if clearError.Some? {
        return SaveFailed(clearError.value);
      }
      db := map[];
      var retryId := GetSessionId(stamp);
      var retryState := Snapshot(files, activeFileId, activeTab, retryId);
      if retryWrite.Some? {
        return SaveFailed(retryWrite.value);
      }
      db := db[StorageKey := retryState];
      outcome := Saved;
    }

    /**
      `loadState`: the stored snapshot if it belongs to this session; one
      from another session is deleted; any error gives `None`.
    */
    method LoadState(stamp: string, readFails: bool, removeFails: bool) returns (r: Option<SavedState>)
      modifies this
      ensures sessionSlot == Some(SessionIdFor(old(sessionSlot), stamp))
      ensures (db, r) == LoadEffect(old(db), SessionIdFor(old(sessionSlot), stamp), readFails, removeFails)
    {
      var sessionId := GetSessionId(stamp);
      if readFails || StorageKey !in db {
        return None;
      }
      var state := db[StorageKey];
      if state.sessionId == sessionId {
        return Some(state);
      }
      if !removeFails {
        db := db - {StorageKey};
      }
      r := None;
    }

    /** `cleanup` for the session id captured when the page loaded; errors are swallowed. */
    method Cleanup(sessionId: string, readFails: bool, removeFails: bool)
      modifies this
      ensures db == CleanupEffect(old(db), sessionId, readFails, removeFails)
      ensures sessionSlot == old(sessionSlot)
    {
      if readFails || StorageKey !in db {
        return;
      }
      var state := db[StorageKey];
      if state.sessionId == sessionId && !removeFails {
        db := db - {StorageKey};
      }
    }

    /** `clearState`: removes the key; a failure is swallowed, so it never throws. */
    method ClearState(removeFails: bool)
      modifies this
      ensures db == if removeFails then old(db) else old(db) - {StorageKey}
      ensures sessionSlot == old(sessionSlot)
    {
      if !removeFails {
        db := db - {StorageKey};
      }
    }
  }

  /** Saving and then loading in one tab gives back what was saved, minus the raw data. */
  method SaveThenLoadInOneTab(p: Persistence, files: seq<Doc>, activeFileId: string, activeTab: Tab, stamp: string)
    returns (loaded: Option<SavedState>)
    modifies p
    ensures loaded == Some(Snapshot(files, activeFileId, activeTab, SessionIdFor(old(p.sessionSlot), stamp)))
  {
    var outcome := p.SaveState(files, activeFileId, activeTab, stamp, None, None, None);
    loaded := p.LoadState(stamp, false, false);
  }
}
