/**
 The acquisition-tax law view as objects: the keyword dialog with its own
 state, and the view holding the catalog it shows, the entry being edited,
 the mounted dialog and the browser's local storage, read at mount and
 written on every keyword save.
 */
module Component {
  import opened KeywordEditor
  import opened LawCatalog
  import opened SnapshotCache

  /** The keyword dialog: its state lives as long as the dialog stays mounted. */
  class EditKeywordsDialog {
    /** `currentKeywords` and `newKeyword`. */
    var editor: Editor

    /** Mounting takes the entry's keywords as the initial list, input empty. */
    constructor (keywords: seq<string>)
      ensures editor == Open(keywords)
    {
      editor := Open(keywords);
    }

    /** One user action: typing, pressing add, or clicking a keyword to remove it. */
    method Act(a: Action)
      modifies this
      ensures editor == Step(old(editor), a)
    {
      match a
      case Type(text) => editor := SetInput(editor, text);
      case Add => editor := AddKeyword(editor);
      case Remove(index) => editor := RemoveKeyword(editor, index);
    }
  }

  class AcquisitionTaxLaws {
    /** The catalog on screen (`laws`). */
    var laws: Catalog
    /** The address the keyword dialog edits, if any (`editingLaw`). */
    var editingLaw: Option<Address>
    /** Whether the dialog is shown (`dialogOpen`). */
    var dialogOpen: bool
    /** The mounted dialog: present exactly while an address is being edited. */
    var dialog: EditKeywordsDialog?
    /** Local storage: key to parsed stored value. */
    var storage: Store<Catalog>

    /** The dialog is mounted exactly while an existing entry is being edited. */
    ghost predicate Valid()
      reads this
    {
      (dialog == null <==> editingLaw.None?)
      && (editingLaw.Some? ==> ValidAddress(laws, editingLaw.value))
    }

    /**
     Mounting: the catalog starts as the built-in default, then the initial
     load replaces it with the saved snapshot when one is usable.
     */
    constructor (defaults: Catalog, initialStorage: Store<Catalog>, now: int)
      ensures Valid()
      ensures laws == LoadValue(initialStorage, StorageKey, defaults, now)
      ensures storage == StoreAfterLoad(initialStorage, StorageKey, now)
      ensures editingLaw == None && dialog == null && !dialogOpen
    {
      laws := defaults;
      editingLaw := None;
      dialogOpen := false;
      dialog := null;
      storage := initialStorage;
      new;
      var saved := Load(StorageKey, defaults, now);
      laws := saved;
    }

    /**
     Reads `key`: the fallback when it is absent or unparseable; when its
     stamp is more than two years old the key is removed and the fallback
     returned; otherwise the envelope's data, or the whole legacy value.
     */
    method Load(key: string, fallback: Catalog, now: int) returns (r: Catalog)
      requires Valid()
      modifies this`storage
      ensures Valid()
      ensures r == LoadValue(old(storage), key, fallback, now)
      ensures storage == StoreAfterLoad(old(storage), key, now)
    {
      if key !in storage {
        return fallback;
      }
      match storage[key]
      case Unparseable =>
        r := fallback;
      case Legacy(value) =>
        r := value;
      case Envelope(data, timestamp) =>
        if timestamp.Some? && timestamp.value != 0 && now - timestamp.value > TwoYearsMs {
          storage := storage - {key};
          r := fallback;
        } else {
          r := data;
        }
    }

    /** Writes `{data, timestamp: now}` under the catalog's storage key. */
    method Save(data: Catalog, now: int)
      requires Valid()
      modifies this`storage
      ensures Valid()
      ensures storage == StoreAfterSave(old(storage), data, now)
    {
      storage := storage[StorageKey := Envelope(data, Some(now))];
    }

    /**
     Clicking an entry's edit button: records the address and shows a dialog
     freshly initialised with that entry's keywords. (The dialog reads the
     entry while rendering, so the address must name an existing entry.)
     */
    method OpenKeywordEditor(sectionIndex: int, lawIndex: int)
      requires Valid() && ValidAddress(laws, Address(sectionIndex, lawIndex))
      modifies this`editingLaw, this`dialogOpen, this`dialog
      ensures Valid()
      ensures editingLaw == Some(Address(sectionIndex, lawIndex)) && dialogOpen
      ensures dialog != null && fresh(dialog)
      ensures dialog.editor == Open(laws[sectionIndex].laws[lawIndex].keywords)
    {
      editingLaw := Some(Address(sectionIndex, lawIndex));
      dialogOpen := true;
      dialog := new EditKeywordsDialog(laws[sectionIndex].laws[lawIndex].keywords);
    }

    /**
     The edit button as written: a dialog that is still mounted (the last one
     was cancelled, which leaves the address set) keeps its own state, so it
     shows the keywords of the entry edited before rather than this entry's.
     */
    method OpenKeywordEditorAsWritten(sectionIndex: int, lawIndex: int)
      requires Valid() && ValidAddress(laws, Address(sectionIndex, lawIndex))
      modifies this`editingLaw, this`dialogOpen, this`dialog
      ensures Valid()
      ensures editingLaw == Some(Address(sectionIndex, lawIndex)) && dialogOpen
      ensures old(dialog) != null ==> dialog == old(dialog) && dialog.editor == old(dialog.editor)
      ensures old(dialog) == null ==>
                dialog != null && fresh(dialog)
                && dialog.editor == Open(laws[sectionIndex].laws[lawIndex].keywords)
    {
      editingLaw := Some(Address(sectionIndex, lawIndex));
      dialogOpen := true;
      if dialog == null {
        dialog := new EditKeywordsDialog(laws[sectionIndex].laws[lawIndex].keywords);
      }
    }

    /** Cancelling hides the dialog; the address stays set, so the dialog stays mounted. */
    method CancelDialog()
      requires Valid()
      modifies this`dialogOpen
      ensures Valid() && !dialogOpen
    {
      dialogOpen := false;
    }

    /**
     Saving the dialog's keywords for the edited entry: with an entry being
     edited, its keywords are replaced, the whole catalog is persisted with
     the current time, and editing ends (which unmounts the dialog); with none,
     nothing happens. A valid catalog stays valid when the new list is valid,
     so no persisted entry ever holds more than seven keywords.
     */
    method HandleKeywordSave(newKeywords: seq<string>, now: int)
      requires Valid()
      modifies this`laws, this`storage, this`editingLaw, this`dialog
      ensures Valid() && editingLaw == None && dialog == null
      ensures old(editingLaw).None? ==> laws == old(laws) && storage == old(storage)
      ensures old(editingLaw).Some? ==>
                laws == SetKeywords(old(laws), old(editingLaw).value, newKeywords)
                && storage == StoreAfterSave(old(storage), laws, now)
      ensures old(ValidCatalog(laws)) && ValidKeywords(newKeywords) ==> ValidCatalog(laws)
    {
      if editingLaw.Some? {
        SetKeywordsPreserves(laws, editingLaw.value, newKeywords);
        var newLaws := SetKeywords(laws, editingLaw.value, newKeywords);
        laws := newLaws;
        Save(newLaws, now);
        editingLaw := None;
        dialog := null;
      }
    }

    /** The dialog's save button: hands its current list to the view, then closes. */
    method SaveDialog(now: int)
      requires Valid() && dialog != null
      modifies this`laws, this`storage, this`editingLaw, this`dialog, this`dialogOpen
      ensures Valid() && editingLaw == None && dialog == null && !dialogOpen
      ensures laws == SetKeywords(old(laws), old(editingLaw).value, old(dialog.editor.keywords))
      ensures storage == StoreAfterSave(old(storage), laws, now)
    {
      HandleKeywordSave(dialog.editor.keywords, now);
      dialogOpen := false;
    }

    /**
     Editing the entry at an address, as written, from a view with no dialog
     mounted (after mounting, or after a save): click its edit button, type
     `text`, press add, press save. The entry then carries its own list with
     the typed keyword added under the dialog's rules, validity is kept, and
     storage holds the new catalog stamped with `now`.
     */
    method EditEntry(a: Address, text: string, now: int)
      requires Valid() && editingLaw.None? && ValidAddress(laws, a)
      modifies this`laws, this`storage, this`editingLaw, this`dialog, this`dialogOpen
      ensures Valid() && editingLaw == None && dialog == null
      ensures laws == SetKeywords(old(laws), a,
                                  AddKeyword(Editor(old(laws)[a.sectionIndex].laws[a.lawIndex].keywords, text)).keywords)
      ensures storage == StoreAfterSave(old(storage), laws, now)
      ensures old(ValidCatalog(laws)) ==> ValidCatalog(laws)
    {
      ghost var before := laws;
      ghost var edited := AddKeyword(Editor(laws[a.sectionIndex].laws[a.lawIndex].keywords, text)).keywords;
      OpenKeywordEditorAsWritten(a.sectionIndex, a.lawIndex);
      dialog.Act(Type(text));
      dialog.Act(Add);
      assert dialog.editor.keywords == edited;
      SaveDialog(now);
      assert ValidCatalog(before) ==> ValidCatalog(laws) by {
        if ValidCatalog(before) {
          assert ValidKeywords(before[a.sectionIndex].laws[a.lawIndex].keywords);
          SetKeywordsPreserves(before, a, edited);
        }
      }
    }

    /**
     The edit flow for an entry shown by the search, as written, from a view
     with no dialog mounted: the entry is resolved back to the full catalog by
     titles and edited there. The entry edited is the shown one, it now
     carries its own list with the keyword added, and any load within two
     years reads the saved catalog back.
     */
    method EditShownEntry(query: string, shown: LawSection, law: LawItem, text: string,
                          now: int, later: int)
      requires Valid() && editingLaw.None?
      requires UniqueSectionTitles(laws)
      requires forall i :: 0 <= i < |laws| ==> UniqueLawTitles(laws[i].laws)
      requires shown in FilterCatalog(laws, query) && law in shown.laws
      requires later - now <= TwoYearsMs
      modifies this`laws, this`storage, this`editingLaw, this`dialog, this`dialogOpen
      ensures Valid() && editingLaw == None && dialog == null
      ensures exists a :: ValidAddress(old(laws), a) && old(laws)[a.sectionIndex].laws[a.lawIndex] == law
                          && laws == SetKeywords(old(laws), a, AddKeyword(Editor(law.keywords, text)).keywords)
      ensures old(ValidCatalog(laws)) ==> ValidCatalog(laws)
      ensures forall fallback :: LoadValue(storage, StorageKey, fallback, later) == laws
    {
      ResolveDisplayedEntry(laws, query, shown, law);
      var a := Resolve(laws, shown.title, law.title);
      ghost var stored := storage;
      EditEntry(a, text, now);
      forall fallback ensures LoadValue(storage, StorageKey, fallback, later) == laws {
        SaveThenLoad(stored, laws, now, fallback, later);
      }
    }
  }

  /**
   As written: edit "A" (keywords ["a"]), cancel, edit "B" (keywords ["b"])
   and save without touching anything: "B" is saved with A's list.
   */
  method StaleDialogExample() returns (keywordsOfB: seq<string>)
    ensures keywordsOfB == ["a"]
  {
    var v := new AcquisitionTaxLaws([LawSection("S", [LawItem("A", "", ["a"]), LawItem("B", "", ["b"])])], map[], 0);
    v.OpenKeywordEditorAsWritten(0, 0);
    v.CancelDialog();
    v.OpenKeywordEditorAsWritten(0, 1);
    v.SaveDialog(0);
    keywordsOfB := v.laws[0].laws[1].keywords;
  }

  /** The same clicks with a freshly initialised dialog leave "B" with its own list. */
  method FreshDialogExample() returns (keywordsOfB: seq<string>)
    ensures keywordsOfB == ["b"]
  {
    var v := new AcquisitionTaxLaws([LawSection("S", [LawItem("A", "", ["a"]), LawItem("B", "", ["b"])])], map[], 0);
    v.OpenKeywordEditor(0, 0);
    v.CancelDialog();
    v.OpenKeywordEditor(0, 1);
    v.SaveDialog(0);
    keywordsOfB := v.laws[0].laws[1].keywords;
  }
}
