/**
 * Which folders of the tree are expanded: a set of folder ids with a
 * membership test, a toggle, a reset, and the parse of the stored list.
 */
module TreeState {
  import opened Wrappers

  /** The open set after toggling `id`: removed when present, added when absent. */
  function Toggled(open: set<string>, id: string): (r: set<string>)
    ensures id in r <==> id !in open
    ensures forall other :: other != id ==> (other in r <==> other in open)
  {
    if id in open then open - {id} else open + {id}
  }

  /** Toggling the same id twice restores the set. */
  lemma ToggleTwice(open: set<string>, id: string)
    ensures Toggled(Toggled(open, id), id) == open
  {
    var twice := Toggled(Toggled(open, id), id);
    assert forall x :: x in twice <==> x in open;
  }

  class FolderState {
    var openFolders: set<string>

    /** The state holding the set loaded at start-up. */
    constructor (initial: set<string>)
      ensures openFolders == initial
    {
      openFolders := initial;
    }

    /** `isOpen(id)`: whether the folder is expanded, that is, its id is in the open set. */
    predicate IsOpen(id: string)
      reads this
      ensures IsOpen(id) <==> id in openFolders
    {
      id in openFolders
    }

    /** `toggle(id)`: deletes the id when present, adds it otherwise. */
    method Toggle(id: string)
      modifies this
      ensures openFolders == Toggled(old(openFolders), id)
      ensures IsOpen(id) <==> !old(IsOpen(id))
      ensures forall other :: other != id ==> (IsOpen(other) <==> old(IsOpen(other)))
    {
      if id in openFolders {
        openFolders := openFolders - {id};
      } else {
        openFolders := openFolders + {id};
      }
    }

    /** `reset()`: closes every folder. */
    method Reset()
      modifies this
      ensures openFolders == {}
      ensures forall id :: !IsOpen(id)
    {
      openFolders := {};
    }
  }

  /**
   * What `JSON.parse` makes of the stored text, as far as `new Set(...)`
   * cares: no value (a syntax error), an array of ids, a string (iterated
   * character by character), null, or another value (not iterable).
   */
  datatype Parsed = Unparsable | JsonArray(items: seq<string>) | JsonString(s: string) | JsonNull | OtherJson

  /**
   * The open set at start-up from the stored text (None when nothing is
   * stored). `parse` stands for `JSON.parse`.
   */
  function LoadOpenFolders(raw: Option<string>, parse: string -> Parsed): (r: set<string>)
    ensures raw.None? || raw == Some("") ==> r == {}
    ensures raw.Some? && raw.value != "" && parse(raw.value).JsonArray? ==>
      forall id :: id in r <==> id in parse(raw.value).items
    ensures raw.Some? && raw.value != "" && !parse(raw.value).JsonArray? && !parse(raw.value).JsonString? ==> r == {}
  {
    if raw.None? || raw.value == "" then {}
    else
      match parse(raw.value)
      case JsonArray(items) => set id | id in items
      case JsonString(s) => set c | c in s :: [c]
      case _ => {}
  }

  /** A stored string opens one id per character of the string. */
  lemma LoadFromString(raw: Option<string>, parse: string -> Parsed)
    requires raw.Some? && raw.value != "" && parse(raw.value).JsonString?
    ensures forall id :: id in LoadOpenFolders(raw, parse) <==> |id| == 1 && id[0] in parse(raw.value).s
  {
    var s := parse(raw.value).s;
    forall id ensures id in LoadOpenFolders(raw, parse) <==> |id| == 1 && id[0] in s {
      if |id| == 1 && id[0] in s {
        assert id == [id[0]];
      }
    }
  }

  /**
   * Loading what saveToStorage wrote restores the set: the stored text is a
   * JSON array listing the members, which is never the empty string.
   */
  lemma LoadAfterSave(open: set<string>, stored: string, parse: string -> Parsed)
    requires stored != ""
    requires parse(stored).JsonArray?
    requires forall id :: id in parse(stored).items <==> id in open
    ensures LoadOpenFolders(Some(stored), parse) == open
  {
    assert forall id :: id in LoadOpenFolders(Some(stored), parse) <==> id in open;
  }
}
