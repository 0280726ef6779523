/**
 * The per-track colour tags: a map from the decimal string of a track id to
 * a colour, read with `get` and replaced by a copy with one key assigned or
 * deleted by `set`.
 */
module ColorTags {
  import opened Wrappers
  import opened JsText

  /** A track id as callers pass it: a number or a string. */
  datatype TrackKey = NumberKey(n: int) | StringKey(s: string)

  /** `String(trackId)`. */
  function KeyOf(id: TrackKey): string {
    match id
    case NumberKey(n) => DecimalString(n)
    case StringKey(s) => s
  }

  /** The tags with `key` deleted (null) or assigned the colour. */
  function Assigned(tags: map<string, string>, key: string, color: Option<string>): (r: map<string, string>)
    ensures color.None? ==> key !in r
    ensures color.Some? ==> key in r && r[key] == color.value
    ensures forall k :: k != key ==> (k in r <==> k in tags) && (k in r ==> r[k] == tags[k])
  {
    if color.None? then tags - {key} else tags[key := color.value]
  }

  /** The tags after `set(id, color)`: the key deleted for null, assigned otherwise. */
  function Updated(tags: map<string, string>, id: TrackKey, color: Option<string>): (r: map<string, string>)
    ensures color.None? ==> KeyOf(id) !in r
    ensures color.Some? ==> KeyOf(id) in r && r[KeyOf(id)] == color.value
    ensures forall k :: k != KeyOf(id) ==> (k in r <==> k in tags) && (k in r ==> r[k] == tags[k])
  {
    Assigned(tags, KeyOf(id), color)
  }

  class ColorTagStore {
    var tags: map<string, string>

    /** The store holding the tags loaded at start-up. */
    constructor (initial: map<string, string>)
      ensures tags == initial
    {
      tags := initial;
    }

    /** `get(trackId)`: the colour of the track, or null when it has none. */
    function Get(id: TrackKey): (color: Option<string>)
      reads this
      ensures color.Some? <==> KeyOf(id) in tags
      ensures color.Some? ==> color.value == tags[KeyOf(id)]
    {
      var key := KeyOf(id);
      if key in tags then Some(tags[key]) else None
    }

    /** `set(trackId, color)`: copies the tags, deletes or assigns one key, stores the copy. */
    method Set(id: TrackKey, color: Option<string>)
      modifies this
      ensures tags == Updated(old(tags), id, color)
      ensures Get(id) == color
      ensures forall other :: KeyOf(other) != KeyOf(id) ==> Get(other) == old(Get(other))
    {
      var next := tags;
      var key := KeyOf(id);
      if color.None? {
        next := next - {key};
      } else {
        next := next[key := color.value];
      }
      tags := next;
    }
  }

  /** Repeating a `set` changes nothing more. */
  lemma SetIdempotent(tags: map<string, string>, id: TrackKey, color: Option<string>)
    ensures Updated(Updated(tags, id, color), id, color) == Updated(tags, id, color)
  {
    AssignIdempotent(tags, KeyOf(id), color);
  }

  lemma AssignIdempotent(tags: map<string, string>, key: string, color: Option<string>)
    ensures Assigned(Assigned(tags, key, color), key, color) == Assigned(tags, key, color)
  {
    var once := Assigned(tags, key, color);
    assert Assigned(once, key, color).Keys == once.Keys;
  }

  /** `set`s of two different tracks can be done in either order. */
  lemma SetsCommute(tags: map<string, string>, a: TrackKey, ca: Option<string>, b: TrackKey, cb: Option<string>)
    requires KeyOf(a) != KeyOf(b)
    ensures Updated(Updated(tags, a, ca), b, cb) == Updated(Updated(tags, b, cb), a, ca)
  {
    AssignmentsCommute(tags, KeyOf(a), ca, KeyOf(b), cb);
  }

  lemma AssignmentsCommute(tags: map<string, string>, ka: string, ca: Option<string>, kb: string, cb: Option<string>)
    requires ka != kb
    ensures Assigned(Assigned(tags, ka, ca), kb, cb) == Assigned(Assigned(tags, kb, cb), ka, ca)
  {
    var ab := Assigned(Assigned(tags, ka, ca), kb, cb);
    var ba := Assigned(Assigned(tags, kb, cb), ka, ca);
    assert ab.Keys == ba.Keys;
  }

  /**
   * A numeric id and the string of its decimal numeral address the same
   * entry: the id written by `String` is a numeral denoting that id, and the
   * number a stored numeral key denotes is written back as that key
   * (12 and "12").
   */
  lemma NumberAndStringShareEntry(n: nat, s: string)
    requires IsNatNumeral(s)
    ensures IsNatNumeral(KeyOf(NumberKey(n))) && DigitsValue(KeyOf(NumberKey(n))) == n
    ensures KeyOf(NumberKey(DigitsValue(s))) == KeyOf(StringKey(s))
    ensures KeyOf(NumberKey(12)) == "12"
  {
    NatStringOfValue(s);
    assert DigitsValue("12") == 12 by {
      assert "12"[..1] == "1" && "1"[..0] == [];
    }
    NatStringOfValue("12");
  }

  /** Distinct numeric ids never share an entry. */
  lemma DistinctNumbersDistinctEntries(n: int, m: int)
    requires n != m
    ensures KeyOf(NumberKey(n)) != KeyOf(NumberKey(m))
  {
    if DecimalString(n) == DecimalString(m) {
      DecimalStringInjective(n, m);
    }
  }
}
