/**
  The storage hook of src/hooks/useStorage.ts: the four pieces of
  application state (open records, active id, active tab, initialised
  flag), the startup load that fills them, and the save that follows every
  change once startup is done. The open records and the active id live in
  the tab store that the file-management handlers change.
*/
module StorageHook {
  import opened Wrappers
  import opened JsString
  import opened FileType
  import opened Document
  import opened FileManagement
  import opened Storage

  const WelcomeText: string :=
    "# Welcome to Document Reader\n\nStart typing on the **left** to see the preview on the **right**.\n\n## Supported Formats\n- **Markdown**: Editor + Preview\n- **PDF**: Reader only\n- **Word (.doc/.docx)**: Reader only\n- **RTF**: Editor + Preview\n\n## Multi-Tab Features\n- Click the `+` icon to add a new file\n- Click `x` on a tab to close it\n- Import opens a new tab automatically\n\n```javascript\nconsole.log('Hello World');\n```"

  /**
    `DEFAULT_FILE`: the welcome document a tab starts with when nothing is
    restored. Its name ends in ".md", so its stated type is the one its
    name is detected as (`MdSuffixIsMarkdown`).
  */
  function DefaultFile(): (d: Doc)
    ensures d.id == "1" && d.content == WelcomeText && d.fileType == Markdown && d.rawData.None?
    ensures EndsWith(d.name, ".md")
  {
    var d := Doc("1", "Welcome.md", WelcomeText, Markdown, None);
    assert d.name[|d.name| - 3..] == ".md";
    d
  }

  /** What the startup load's `await loadState()` produced: a value, or an exception. */
  datatype LoadAttempt = LoadThrew | LoadReturned(state: Option<SavedState>)

  /** `saved.activeFileId || saved.files[0]?.id || ""`. */
  function RestoredActiveId(saved: SavedState): (id: string)
    ensures saved.activeFileId != "" ==> id == saved.activeFileId
    ensures saved.activeFileId == "" && |saved.files| > 0 ==> id == saved.files[0].id
    ensures id == "" <==> saved.activeFileId == "" && (|saved.files| == 0 || saved.files[0].id == "")
  {
    if saved.activeFileId != "" then saved.activeFileId
    else if |saved.files| > 0 then saved.files[0].id
    else ""
  }

  /** `saved.activeTab || "write"`. */
  function RestoredTab(saved: SavedState): (t: Tab)
    ensures saved.activeTab.Some? ==> t == saved.activeTab.value
    ensures saved.activeTab.None? ==> t == Write
  {
    match saved.activeTab
    case Some(t) => t
    case None => Write
  }

  /** A restored active id names a restored record whenever the saved one did, or was empty and a record was saved. */
  lemma RestoredActiveIdExists(saved: SavedState)
    requires saved.activeFileId == "" ==> |saved.files| > 0
    requires saved.activeFileId != "" ==> HasId(saved.files, saved.activeFileId)
    ensures HasId(saved.files, RestoredActiveId(saved))
  {
    if saved.activeFileId == "" {
      assert saved.files[0].id == RestoredActiveId(saved);
    }
  }

  /** The application state the storage hook owns. */
  class Workspace {
    const tabs: TabStore
    var activeTab: Tab
    var isInitialized: bool

    /** The state before the startup load completes: no records, no active id, the write tab. */
    constructor()
      ensures fresh(tabs)
      ensures tabs.files == [] && tabs.activeId == "" && activeTab == Write && !isInitialized
    {
      tabs := new TabStore([], "");
      activeTab := Write;
      isInitialized := false;
    }

    /**
      `loadInitialState`: a restored snapshot sets the records, the active id
      and the tab; no snapshot, or an exception, opens the welcome document.
      Every path ends initialised.
    */
    method LoadInitialState(attempt: LoadAttempt)
      modifies this, tabs
      ensures isInitialized
      ensures attempt.LoadReturned? && attempt.state.Some? ==>
        var saved := attempt.state.value;
        tabs.files == saved.files && tabs.activeId == RestoredActiveId(saved)
        && activeTab == RestoredTab(saved)
      ensures attempt.LoadThrew? || attempt.state.None? ==>
        tabs.files == [DefaultFile()] && tabs.activeId == "1" && activeTab == old(activeTab)
    {
      if attempt.LoadReturned? && attempt.state.Some? {
        var saved := attempt.state.value;
        tabs.files := saved.files;
        tabs.activeId := RestoredActiveId(saved);
        activeTab := RestoredTab(saved);
      } else {
        tabs.files := [DefaultFile()];
        tabs.activeId := "1";
      }
      isInitialized := true;
    }

    /** Startup: `loadState` against the persistence layer, then the state it leads to. */
    method Start(p: Persistence, stamp: string, readFails: bool, removeFails: bool)
      modifies this, tabs, p
      ensures isInitialized
      ensures var (db, loaded) := LoadEffect(old(p.db), SessionIdFor(old(p.sessionSlot), stamp), readFails, removeFails);
        p.db == db
        && (loaded.Some? ==> tabs.files == loaded.value.files && tabs.activeId == RestoredActiveId(loaded.value))
        && (loaded.None? ==> tabs.files == [DefaultFile()] && tabs.activeId == "1")
        && (loaded.Some? ==> activeTab == RestoredTab(loaded.value))
        && (loaded.None? ==> activeTab == old(activeTab))
    {
      var loaded := p.LoadState(stamp, readFails, removeFails);
      LoadInitialState(LoadReturned(loaded));
    }

    /**
      The save effect, run after each change of records, active id or tab:
      nothing before startup is done; afterwards the current state is saved,
      and a failure is logged and swallowed, leaving the in-memory state as
      it is.
    */
    method AutoSave(p: Persistence, stamp: string, firstWrite: Option<StorageError>,
                    clearError: Option<StorageError>, retryWrite: Option<StorageError>)
      modifies p
      ensures !isInitialized ==> p.db == old(p.db) && p.sessionSlot == old(p.sessionSlot)
      ensures isInitialized ==>
        p.db == SaveEffect(old(p.db), Snapshot(tabs.files, tabs.activeId, activeTab, SessionIdFor(old(p.sessionSlot), stamp)),
                           firstWrite, clearError, retryWrite).0
      ensures isInitialized ==> p.sessionSlot == Some(SessionIdFor(old(p.sessionSlot), stamp))
    {
      if !isInitialized {
        return;
      }
      var outcome := p.SaveState(tabs.files, tabs.activeId, activeTab, stamp, firstWrite, clearError, retryWrite);
    }
  }
}
