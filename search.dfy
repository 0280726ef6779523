/**
 * Track search: simplifyString (transliteration and lower-casing) and
 * searchTracks (substring matching split into a word-boundary bucket and a
 * mid-word bucket, capped at 100 ids).
 */
module Search {
  import opened Wrappers
  import opened JsText
  import opened Tracks

  /** Queries shorter than this, once simplified and trimmed, match nothing. */
  const MinQueryLength := 2

  /** The most ids a search returns. */
  const MaxResults := 100

  /**
   * The transliteration table of simplifyString, in the order written, or
   * None for a character that is not a key. 'Ą' is written twice in the
   * table, first as "A" and later as "E"; as in an object literal the later
   * value is the one that stays, so it appears here once, with "E". The key
   * 'I' (an ASCII letter) is never consulted, since only characters outside
   * [A-Za-z0-9] are looked up.
   */
  function Transliteration(c: char): (r: Option<string>)
    ensures r.Some? ==> 1 <= |r.value| <= 2 && forall k :: 0 <= k < |r.value| ==> IsAsciiLetter(r.value[k])
    ensures IsAsciiAlnum(c) && c != 'I' ==> r.None?
  {
    match c
      case 'À' => Some("A") case 'Á' => Some("A") case 'Â' => Some("A") case 'Ã' => Some("A")
      case 'Ä' => Some("A") case 'Å' => Some("A") case 'Æ' => Some("AE") case 'Ç' => Some("C")
      case 'È' => Some("E") case 'É' => Some("E") case 'Ê' => Some("E") case 'Ë' => Some("E")
      case 'Ì' => Some("I") case 'Í' => Some("I") case 'Î' => Some("I") case 'Ï' => Some("I")
      case 'Ð' => Some("D") case 'Ñ' => Some("N") case 'Ò' => Some("O") case 'Ó' => Some("O")
      case 'Ô' => Some("O") case 'Õ' => Some("O") case 'Ö' => Some("O") case 'Ø' => Some("O")
      case 'Ù' => Some("U") case 'Ú' => Some("U") case 'Û' => Some("U") case 'Ü' => Some("U")
      case 'Ý' => Some("Y") case 'Þ' => Some("TH") case 'ß' => Some("ss") case 'à' => Some("a")
      case 'á' => Some("a") case 'â' => Some("a") case 'ã' => Some("a") case 'ä' => Some("a")
      case 'å' => Some("a") case 'æ' => Some("ae") case 'ç' => Some("c") case 'è' => Some("e")
      case 'é' => Some("e") case 'ê' => Some("e") case 'ë' => Some("e") case 'ì' => Some("i")
      case 'í' => Some("i") case 'î' => Some("i") case 'ï' => Some("i") case 'ð' => Some("d")
      case 'ñ' => Some("n") case 'ò' => Some("o") case 'ó' => Some("o") case 'ô' => Some("o")
      case 'õ' => Some("o") case 'ö' => Some("o") case 'ø' => Some("o") case 'ù' => Some("u")
      case 'ú' => Some("u") case 'û' => Some("u") case 'ü' => Some("u") case 'ý' => Some("y")
      case 'þ' => Some("th") case 'ÿ' => Some("y") case 'ẞ' => Some("SS") case 'ă' => Some("a")
      case 'ą' => Some("a") case 'Ć' => Some("C") case 'ć' => Some("c") case 'Č' => Some("C")
      case 'č' => Some("c") case 'Ď' => Some("D") case 'ď' => Some("d") case 'Đ' => Some("D")
      case 'đ' => Some("d") case 'Ě' => Some("E") case 'ě' => Some("e") case 'Ą' => Some("E")
      case 'ė' => Some("e") case 'ę' => Some("e") case 'Ę' => Some("E") case 'Ģ' => Some("G")
      case 'ģ' => Some("g") case 'Ħ' => Some("H") case 'ħ' => Some("h") case 'Ĩ' => Some("I")
      case 'ĩ' => Some("i") case 'Ī' => Some("I") case 'ī' => Some("i") case 'Į' => Some("I")
      case 'į' => Some("i") case 'I' => Some("I") case 'ı' => Some("i") case 'Ķ' => Some("K")
      case 'ķ' => Some("k") case 'Ļ' => Some("L") case 'ļ' => Some("l") case 'Ľ' => Some("L")
      case 'ľ' => Some("l") case 'Ł' => Some("L") case 'ł' => Some("l") case 'Ń' => Some("N")
      case 'ń' => Some("n") case 'Ņ' => Some("N") case 'ņ' => Some("n") case 'Ň' => Some("N")
      case 'ň' => Some("n") case 'Ō' => Some("O") case 'ō' => Some("o") case 'Ő' => Some("O")
      case 'ő' => Some("o") case 'Œ' => Some("OE") case 'œ' => Some("oe") case 'Ŕ' => Some("R")
      case 'ŕ' => Some("r") case 'Ř' => Some("R") case 'ř' => Some("r") case 'Ś' => Some("S")
      case 'ś' => Some("s") case 'Ş' => Some("S") case 'ş' => Some("s") case 'Š' => Some("S")
      case 'š' => Some("s") case 'Ţ' => Some("T") case 'ţ' => Some("t") case 'Ť' => Some("T")
      case 'ť' => Some("t") case 'Ũ' => Some("U") case 'ũ' => Some("u") case 'Ū' => Some("U")
      case 'ū' => Some("u") case 'Ů' => Some("U") case 'ů' => Some("u") case 'Ű' => Some("U")
      case 'ű' => Some("u") case 'Ų' => Some("U") case 'ų' => Some("u") case 'Ŵ' => Some("W")
      case 'ŵ' => Some("w") case 'Ŷ' => Some("Y") case 'ŷ' => Some("y") case 'Ÿ' => Some("Y")
      case 'Ź' => Some("Z") case 'ź' => Some("z") case 'Ż' => Some("Z") case 'ż' => Some("z")
      case 'Ž' => Some("Z") case 'ž' => Some("z") case 'ſ' => Some("s")
      case _ => None
  }

  predicate IsAsciiAlnum(c: char) {
    ('A' <= c <= 'Z') || ('a' <= c <= 'z') || ('0' <= c <= '9')
  }

  predicate IsAsciiLetter(c: char) {
    ('A' <= c <= 'Z') || ('a' <= c <= 'z')
  }

  predicate IsAsciiUpper(c: char) {
    'A' <= c <= 'Z'
  }

  predicate NoAsciiUpper(s: string) {
    forall k :: 0 <= k < |s| ==> !IsAsciiUpper(s[k])
  }

  /** The lower-case ASCII letter for `c`, other characters unchanged. */
  function AsciiLower(c: char): (r: char)
    ensures !IsAsciiUpper(r)
    ensures IsAsciiUpper(c) ==> r as int == c as int + 32
    ensures !IsAsciiUpper(c) ==> r == c
  {
    if IsAsciiUpper(c) then (c as int + 32) as char else c
  }

  /**
   * The Unicode services simplifyString relies on and that are not part of
   * this model: canonical composition (`normalize('NFC')`) and the lower-case
   * mapping of characters outside ASCII.
   */
  datatype UnicodeServices = UnicodeServices(nfc: string -> string, lowerNonAscii: char -> string)

  /** Lower-casing a non-ASCII character never yields an ASCII capital, as in Unicode. */
  ghost predicate LowersCleanly(u: UnicodeServices) {
    forall c :: c as int >= 128 ==> NoAsciiUpper(u.lowerNonAscii(c))
  }

  /** The replacement callback: `map[char] || char` for a character outside [A-Za-z0-9]. */
  function Replacement(c: char): string {
    if IsAsciiAlnum(c) then [c]
    else match Transliteration(c)
      case Some(r) => r
      case None => [c]
  }

  /** `s.replace(/[^A-Za-z0-9]/g, ...)`. */
  function Replace(s: string): string {
    if s == [] then [] else Replacement(s[0]) + Replace(s[1..])
  }

  /** `toLowerCase` of one character. */
  function LowerChar(u: UnicodeServices, c: char): string {
    if c as int < 128 then [AsciiLower(c)] else u.lowerNonAscii(c)
  }

  /** `s.toLowerCase()`, character by character. */
  function ToLower(u: UnicodeServices, s: string): string {
    if s == [] then [] else LowerChar(u, s[0]) + ToLower(u, s[1..])
  }

  /** simplifyString: works character by character on the composed string. */
  function Simplify(u: UnicodeServices, s: string): (r: string)
    ensures r == FoldEach(u, u.nfc(s))
  {
    ToLowerReplace(u, u.nfc(s));
    ToLower(u, Replace(u.nfc(s)))
  }

  /** What simplifyString makes of a single character. */
  function Fold(u: UnicodeServices, c: char): string {
    ToLower(u, Replacement(c))
  }

  /** Applies Fold to every character and joins the results. */
  function FoldEach(u: UnicodeServices, s: string): string {
    if s == [] then [] else Fold(u, s[0]) + FoldEach(u, s[1..])
  }

  lemma {:induction false} ToLowerAppend(u: UnicodeServices, a: string, b: string)
    ensures ToLower(u, a + b) == ToLower(u, a) + ToLower(u, b)
  {
    if a == [] {
      assert a + b == b;
    } else {
      assert (a + b)[0] == a[0] && (a + b)[1..] == a[1..] + b;
      ToLowerAppend(u, a[1..], b);
    }
  }

  lemma {:induction false} ToLowerReplace(u: UnicodeServices, s: string)
    ensures ToLower(u, Replace(s)) == FoldEach(u, s)
  {
    if s != [] {
      ToLowerAppend(u, Replacement(s[0]), Replace(s[1..]));
      ToLowerReplace(u, s[1..]);
    }
  }

  /** ASCII letters and digits pass through, lower-cased. */
  lemma FoldAsciiAlnum(u: UnicodeServices, c: char)
    requires IsAsciiAlnum(c)
    ensures Fold(u, c) == [AsciiLower(c)]
  {
    assert ToLower(u, [c]) == LowerChar(u, c) + ToLower(u, []);
  }

  /** Another character that is a key of the table becomes its value, lower-cased. */
  lemma FoldTableKey(u: UnicodeServices, c: char)
    requires !IsAsciiAlnum(c) && Transliteration(c).Some?
    ensures Fold(u, c) == ToLower(u, Transliteration(c).value)
  {
  }

  /** A character outside the table is kept, then lower-cased. */
  lemma FoldKept(u: UnicodeServices, c: char)
    requires !IsAsciiAlnum(c) && Transliteration(c).None?
    ensures Fold(u, c) == LowerChar(u, c)
  {
    assert ToLower(u, [c]) == LowerChar(u, c) + ToLower(u, []);
  }

  /** The duplicated key keeps its later value; the ASCII key 'I' is never used. */
  lemma TableQuirks(u: UnicodeServices)
    ensures Transliteration('\U{0104}') == Some("E")
    ensures Transliteration('I') == Some("I")
    ensures Fold(u, '\U{0104}') == "e"
    ensures Fold(u, 'I') == "i"
  {
    assert ToLower(u, "E") == LowerChar(u, 'E') + ToLower(u, "");
    assert ToLower(u, "I") == LowerChar(u, 'I') + ToLower(u, "");
  }

  lemma {:induction false} ToLowerNoAsciiUpper(u: UnicodeServices, s: string)
    requires LowersCleanly(u)
    ensures NoAsciiUpper(ToLower(u, s))
  {
    if s != [] {
      ToLowerNoAsciiUpper(u, s[1..]);
      var head, tail := LowerChar(u, s[0]), ToLower(u, s[1..]);
      assert NoAsciiUpper(head);
      forall k | 0 <= k < |head + tail| ensures !IsAsciiUpper((head + tail)[k]) {
        if k >= |head| {
          assert (head + tail)[k] == tail[k - |head|];
        }
      }
    }
  }

  /** The result of simplifyString contains no ASCII capital letter. */
  lemma SimplifyNoAsciiUpper(u: UnicodeServices, s: string)
    requires LowersCleanly(u)
    ensures NoAsciiUpper(Simplify(u, s))
  {
    ToLowerNoAsciiUpper(u, Replace(u.nfc(s)));
  }

  // ---------------------------------------------------------------------------
  // searchTracks

  /** One `[id, track]` pair of `Object.entries(tracksMap)`. */
  type TrackEntry = (string, Track)

  /** The word-boundary test on one simplified field, at the first occurrence of `q`. */
  predicate FieldRelevant(field: string, q: string)
    ensures FieldRelevant(field, q) ==> OccursAt(field, q, IndexOf(field, q))
  {
    var k := IndexOf(field, q);
    || k == 0
    || (k > 0 && (field[k - 1] == ' '
                  || CharAt(field, k + |q|) == Some(' ')
                  || CharAt(field, k + |q|) == Some(',')))
  }

  /** The simplified artist or title contains `q`. */
  predicate Matches(t: Track, q: string) {
    IndexOf(TextOr(t.simplifiedArtist), q) != -1 || IndexOf(TextOr(t.simplifiedName), q) != -1
  }

  /** A match at a word boundary in the artist or the title; only a matching track can be relevant. */
  predicate IsRelevant(t: Track, q: string)
    ensures IsRelevant(t, q) ==> Matches(t, q)
  {
    FieldRelevant(TextOr(t.simplifiedArtist), q) || FieldRelevant(TextOr(t.simplifiedName), q)
  }

  /** The matching entries of `es` that are (or are not) relevant, in iteration order. */
  function Bucket(es: seq<TrackEntry>, q: string, relevant: bool): seq<TrackEntry> {
    if es == [] then []
    else
      var e := es[|es| - 1];
      Bucket(es[..|es| - 1], q, relevant)
        + if Matches(e.1, q) && IsRelevant(e.1, q) == relevant then [e] else []
  }

  function Ids(es: seq<TrackEntry>): (ids: seq<string>)
    ensures |ids| == |es| && forall k :: 0 <= k < |es| ==> ids[k] == es[k].0
  {
    seq(|es|, k requires 0 <= k < |es| => es[k].0)
  }

  /** Taking the ids of the first `n` entries is taking the first `n` ids. */
  lemma IdsTake(a: seq<TrackEntry>, b: seq<TrackEntry>, n: nat)
    ensures Take(Ids(a) + Ids(b), n) == Ids(Take(a + b, n))
  {
    assert Ids(a) + Ids(b) == Ids(a + b);
  }

  /** `s.slice(0, n)`. */
  function Take<T>(s: seq<T>, n: nat): (r: seq<T>)
    ensures |r| == if |s| <= n then |s| else n
    ensures r == s[..|r|]
  {
    if |s| <= n then s else s[..n]
  }

  /** The query as searchTracks compares it. */
  function SimplifiedQuery(u: UnicodeServices, query: string): string {
    Trim(Simplify(u, query))
  }

  /** The entries whose ids a search for the simplified query `q` returns. */
  function Results(q: string, es: seq<TrackEntry>): seq<TrackEntry> {
    if |q| < MinQueryLength then []
    else Take(Bucket(es, q, true) + Bucket(es, q, false), MaxResults)
  }

  /** searchTracks over the entries of the track map, in iteration order. */
  method SearchTracks(u: UnicodeServices, query: string, tracks: seq<TrackEntry>) returns (ids: seq<string>)
    ensures ids == Ids(Results(SimplifiedQuery(u, query), tracks))
  {
    var simplified := SimplifiedQuery(u, query);
    if |simplified| < MinQueryLength {
      return [];
    }
    var relevant, lessRelevant := CollectMatches(simplified, tracks);
    IdsTake(Bucket(tracks, simplified, true), Bucket(tracks, simplified, false), MaxResults);
    ids := Take(relevant + lessRelevant, MaxResults);
  }

  /**
   * The loop of searchTracks: the ids of the tracks whose artist or title
   * contains the simplified query `simplified`, split into those matching at
   * a word boundary and the others, each in iteration order.
   */
  method CollectMatches(simplified: string, tracks: seq<TrackEntry>)
    returns (relevant: seq<string>, lessRelevant: seq<string>)
    ensures relevant == Ids(Bucket(tracks, simplified, true))
    ensures lessRelevant == Ids(Bucket(tracks, simplified, false))
  {
    var len := |simplified|;
    relevant, lessRelevant := [], [];
    for i := 0 to |tracks|
      invariant relevant == Ids(Bucket(tracks[..i], simplified, true))
      invariant lessRelevant == Ids(Bucket(tracks[..i], simplified, false))
    {
      var (id, track) := tracks[i];
      assert tracks[..i + 1][..i] == tracks[..i];
      var artist := TextOr(track.simplifiedArtist);
      var title := TextOr(track.simplifiedName);
      var artistIdx := IndexOf(artist, simplified);
      var titleIdx := IndexOf(title, simplified);
      if artistIdx == -1 && titleIdx == -1 {
        continue;
      }
      var artistRelevant := FieldRelevant(artist, simplified);
      var titleRelevant := FieldRelevant(title, simplified);
      var isRelevant := artistRelevant || titleRelevant;
      if isRelevant {
        relevant := relevant + [id];
      } else {
        lessRelevant := lessRelevant + [id];
      }
    }
    assert tracks[..|tracks|] == tracks;
  }

  // ---------------------------------------------------------------------------
  // Properties of the search

  /** A bucket holds exactly the matching entries of its relevance. */
  lemma {:induction false} BucketMembers(es: seq<TrackEntry>, q: string, relevant: bool, e: TrackEntry)
    ensures e in Bucket(es, q, relevant) <==> e in es && Matches(e.1, q) && IsRelevant(e.1, q) == relevant
  {
    if es != [] {
      var n := |es| - 1;
      BucketMembers(es[..n], q, relevant, e);
      assert es == es[..n] + [es[n]];
    }
  }

  /** Buckets follow iteration order: the bucket of a concatenation is the concatenation of the buckets. */
  lemma {:induction false} BucketAppend(a: seq<TrackEntry>, b: seq<TrackEntry>, q: string, relevant: bool)
    ensures Bucket(a + b, q, relevant) == Bucket(a, q, relevant) + Bucket(b, q, relevant)
    decreases |b|
  {
    if b == [] {
      assert a + b == a;
    } else {
      var n := |b| - 1;
      assert (a + b)[..|a + b| - 1] == a + b[..n];
      BucketAppend(a, b[..n], q, relevant);
    }
  }

  /** At most 100 ids come back, and none for a query shorter than two characters. */
  lemma ResultsAtMost(q: string, es: seq<TrackEntry>)
    ensures |Results(q, es)| <= MaxResults
    ensures |q| < MinQueryLength ==> Results(q, es) == []
  {
  }

  /**
   * Every returned entry is a matching entry of the map, and every relevant
   * one comes before every less relevant one.
   */
  lemma ResultsSoundAndOrdered(q: string, es: seq<TrackEntry>)
    ensures var r := Results(q, es);
      && (forall e :: e in r ==> e in es && Matches(e.1, q))
      && (forall i, j :: 0 <= i < j < |r| && IsRelevant(r[j].1, q) ==> IsRelevant(r[i].1, q))
  {
    if |q| >= MinQueryLength {
      var rel, less := Bucket(es, q, true), Bucket(es, q, false);
      var all := rel + less;
      var r := Results(q, es);
      forall k | 0 <= k < |all|
        ensures all[k] in es && Matches(all[k].1, q) && (IsRelevant(all[k].1, q) <==> k < |rel|)
      {
        if k < |rel| {
          assert all[k] == rel[k];
          BucketMembers(es, q, true, rel[k]);
        } else {
          assert all[k] == less[k - |rel|];
          BucketMembers(es, q, false, less[k - |rel|]);
        }
      }
      forall e | e in r ensures e in es && Matches(e.1, q) {
        var k :| 0 <= k < |r| && r[k] == e;
        assert r[k] == all[k];
      }
      forall i, j | 0 <= i < j < |r| && IsRelevant(r[j].1, q) ensures IsRelevant(r[i].1, q) {
        assert r[i] == all[i] && r[j] == all[j];
      }
    }
  }

  /** When at most 100 tracks match, every matching track is returned. */
  lemma ResultsComplete(q: string, es: seq<TrackEntry>, e: TrackEntry)
    requires |q| >= MinQueryLength
    requires |Bucket(es, q, true)| + |Bucket(es, q, false)| <= MaxResults
    requires e in es && Matches(e.1, q)
    ensures e in Results(q, es)
  {
    BucketMembers(es, q, IsRelevant(e.1, q), e);
  }

  /** The keys of a map are distinct. */
  predicate DistinctIds(es: seq<TrackEntry>) {
    forall i, j :: 0 <= i < j < |es| ==> es[i].0 != es[j].0
  }

  lemma {:induction false} BucketDistinct(es: seq<TrackEntry>, q: string, relevant: bool)
    requires DistinctIds(es)
    ensures DistinctIds(Bucket(es, q, relevant))
  {
    if es != [] {
      var n := |es| - 1;
      var init := es[..n];
      BucketDistinct(init, q, relevant);
      var b := Bucket(init, q, relevant);
      forall k | 0 <= k < |b| ensures b[k].0 != es[n].0 {
        BucketMembers(init, q, relevant, b[k]);
        var j :| 0 <= j < n && init[j] == b[k];
        assert es[j] == b[k];
      }
    }
  }

  /** No id is returned twice. */
  lemma ResultsDistinct(q: string, es: seq<TrackEntry>)
    requires DistinctIds(es)
    ensures DistinctIds(Results(q, es))
  {
    if |q| >= MinQueryLength {
      var rel, less := Bucket(es, q, true), Bucket(es, q, false);
      BucketDistinct(es, q, true);
      BucketDistinct(es, q, false);
      var all := rel + less;
      forall i, j | 0 <= i < j < |all| ensures all[i].0 != all[j].0 {
        if i < |rel| && j >= |rel| {
          var x, y := rel[i], less[j - |rel|];
          BucketMembers(es, q, true, x);
          BucketMembers(es, q, false, y);
          var a :| 0 <= a < |es| && es[a] == x;
          var b :| 0 <= b < |es| && es[b] == y;
          assert a != b;
        } else if j < |rel| {
          assert all[i] == rel[i] && all[j] == rel[j];
        } else {
          assert all[i] == less[i - |rel|] && all[j] == less[j - |rel|];
        }
      }
    }
  }

  /**
   * A match is relevant exactly when, at the first occurrence `k` of the
   * query in the field, the match starts the field, follows a space, or is
   * followed by a space or a comma.
   */
  lemma RelevantAtFirstOccurrence(field: string, q: string, k: nat)
    requires OccursAt(field, q, k)
    requires forall j :: 0 <= j < k ==> !OccursAt(field, q, j)
    ensures FieldRelevant(field, q) <==>
      || k == 0
      || field[k - 1] == ' '
      || (k + |q| < |field| && (field[k + |q|] == ' ' || field[k + |q|] == ','))
  {
    assert IndexOf(field, q) == k;
  }

  /**
   * Searching "ab": "Crabtree" contains it mid-word, "Above & Beyond" at the
   * start, so the second track comes first.
   */
  lemma WordStartRanksFirst()
    ensures var crabtree := Track(1, Some("Crabtree"), None, None, None, None, Some("crabtree"), None);
      var above := Track(2, None, Some("Above & Beyond"), None, None, None, None, Some("above & beyond"));
      var es := [("1", crabtree), ("2", above)];
      Results("ab", es) == [es[1], es[0]]
  {
    var crabtree := Track(1, Some("Crabtree"), None, None, None, None, Some("crabtree"), None);
    var above := Track(2, None, Some("Above & Beyond"), None, None, None, None, Some("above & beyond"));
    assert IndexOf("crabtree", "ab") == 2 by {
      assert OccursAt("crabtree", "ab", 2);
      assert "crabtree"[0..2][0] != "ab"[0] && "crabtree"[1..3][0] != "ab"[0];
    }
    assert IndexOf("above & beyond", "ab") == 0 by {
      assert OccursAt("above & beyond", "ab", 0);
    }
    assert IndexOf("", "ab") == -1;
    assert Matches(crabtree, "ab") && !IsRelevant(crabtree, "ab");
    assert Matches(above, "ab") && IsRelevant(above, "ab");
    var es := [("1", crabtree), ("2", above)];
    assert es[..1] == [es[0]] && es[..1][..0] == [];
    assert Bucket(es[..1], "ab", true) == [];
    assert Bucket(es, "ab", true) == [es[1]];
    assert Bucket(es[..1], "ab", false) == [es[0]];
    assert Bucket(es, "ab", false) == [es[0]];
  }
}
