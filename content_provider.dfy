/**
 * `CustomContentProvider`: routes content URIs to the `Person` table,
 * parses the delete selector, merges partial updates, and announces every
 * change it makes through `notifyChange`, modelled as a log of URIs.
 */
module CustomContentProvider {
  import opened Results
  import opened KotlinText
  import opened UriMatching
  import opened PeopleDatabase

  /** The authority the matcher is registered under. */
  const PROVIDER: string := "com.programmersbox.contentprovidertest.PersonProvider"

  /** The companion object's authority, which is not the one registered. */
  const AUTHORITY: string := "com.programmersbox.contentprovidertest"

  const TABLE_NAME: string := "person"
  const PERSON_NAME: string := TABLE_NAME + "/person"

  /** `Uri.withAppendedPath(AUTHORITY_URI, TABLE_NAME)`. */
  const DOMAIN_URI: Uri := Uri(AUTHORITY, [TABLE_NAME])

  /** Codes the matcher gives the table and the by-name path. */
  const PERSON_TABLE: int := 1
  const PERSON_BY_NAME: int := 2

  // ----- routing -----

  /** A matcher with the table path under code 1 and the by-name path under code 2. */
  function TwoPathMatcher(authority: string, table: string, byName: string): Matcher {
    AddUri(AddUri(NewMatcher(NO_MATCH), authority, table, PERSON_TABLE), authority, byName, PERSON_BY_NAME)
  }

  /** The `uriMatcher` field: `person` under code 1, then `person/person` under code 2. */
  function ProviderMatcher(): (m: Matcher)
    ensures m.noMatch == NO_MATCH
    ensures m.patterns == [Pattern(PROVIDER, ["person"], PERSON_TABLE), Pattern(PROVIDER, ["person", "person"], PERSON_BY_NAME)]
  {
    assert '/' !in TABLE_NAME;
    assert PERSON_NAME == TABLE_NAME + "/" + TABLE_NAME;
    TwoPathPatterns(PROVIDER, TABLE_NAME);
    TwoPathMatcher(PROVIDER, TABLE_NAME, PERSON_NAME)
  }

  /**
   * For a table name without `/`, the two registered paths are the one-segment
   * path of the table name and the two-segment path that repeats it.
   */
  lemma TwoPathPatterns(authority: string, t: string)
    requires '/' !in t
    ensures TwoPathMatcher(authority, t, t + "/" + t).patterns ==
      [Pattern(authority, [t], PERSON_TABLE), Pattern(authority, [t, t], PERSON_BY_NAME)]
  {
    SplitWithout(t, '/');
    assert t + "/" + t == t + ['/'] + t;
    SplitAfter(t, t, '/');
    assert Split(t + "/" + t, '/') == [t, t];
    var m1 := AddUri(NewMatcher(NO_MATCH), authority, t, PERSON_TABLE);
    assert m1.patterns == [Pattern(authority, [t], PERSON_TABLE)];
  }

  /** What a matcher with those two paths gives for every URI. */
  lemma TwoPathMatch(authority: string, t: string, u: Uri)
    requires '/' !in t
    ensures Match(TwoPathMatcher(authority, t, t + "/" + t), u) ==
      if u.authority == authority && u.segments == [t] then PERSON_TABLE
      else if u.authority == authority && u.segments == [t, t] then PERSON_BY_NAME
      else NO_MATCH
  {
    TwoPathPatterns(authority, t);
    var ps := [Pattern(authority, [t], PERSON_TABLE), Pattern(authority, [t, t], PERSON_BY_NAME)];
    assert ps[..1] == [ps[0]] && [ps[0]][..0] == [];
  }

  /**
   * The routing the two `addURI` calls set up: code 1 for exactly
   * `PROVIDER/person`, code 2 for exactly `PROVIDER/person/person` (the
   * second segment is literal, not a wildcard), no match for anything else.
   */
  function Route(u: Uri): (code: int)
    ensures code == PERSON_TABLE <==> u.authority == PROVIDER && u.segments == ["person"]
    ensures code == PERSON_BY_NAME <==> u.authority == PROVIDER && u.segments == ["person", "person"]
    ensures code == PERSON_TABLE || code == PERSON_BY_NAME || code == NO_MATCH
  {
    if u.authority == PROVIDER && u.segments == [TABLE_NAME] then PERSON_TABLE
    else if u.authority == PROVIDER && u.segments == [TABLE_NAME, TABLE_NAME] then PERSON_BY_NAME
    else NO_MATCH
  }

  /** `uriMatcher.match(uri)` routes every URI as `Route` does. */
  lemma MatcherRoutes(u: Uri)
    ensures Match(ProviderMatcher(), u) == Route(u)
  {
    assert '/' !in TABLE_NAME;
    assert PERSON_NAME == TABLE_NAME + "/" + TABLE_NAME;
    TwoPathMatch(PROVIDER, TABLE_NAME, u);
  }

  /** A URI built from the companion object's `DOMAIN_URI` is never routed. */
  lemma DomainUriNeverRoutes()
    ensures Route(DOMAIN_URI) == NO_MATCH
  {
  }

  /** `getType(uri)`. */
  function GetType(u: Uri): (r: Option<string>)
    ensures Route(u) == PERSON_TABLE ==>
      r == Some("vnd.android.cursor.dir/" + PROVIDER + "/person")
    ensures Route(u) == PERSON_BY_NAME ==>
      r == Some("vnd.android.cursor.item/" + PROVIDER + "/person/person")
    ensures r.None? <==> Route(u) == NO_MATCH
  {
    assert "/" + TABLE_NAME == "/person" && "/" + PERSON_NAME == "/person/person";
    assert "vnd.android.cursor.dir/" + PROVIDER + "/" + TABLE_NAME == "vnd.android.cursor.dir/" + PROVIDER + "/person";
    assert "vnd.android.cursor.item/" + PROVIDER + "/" + PERSON_NAME == "vnd.android.cursor.item/" + PROVIDER + "/person/person";
    var code := Route(u);
    if code == PERSON_TABLE then Some("vnd.android.cursor.dir/" + PROVIDER + "/" + TABLE_NAME)
    else if code == PERSON_BY_NAME then Some("vnd.android.cursor.item/" + PROVIDER + "/" + PERSON_NAME)
    else None
  }

  /** `ContentUris.withAppendedId(uri, id)`: the id as one more path segment. */
  function WithAppendedId(u: Uri, id: int): (r: Uri)
    ensures r.authority == u.authority
    ensures |r.segments| == |u.segments| + 1 && r.segments[..|u.segments|] == u.segments
  {
    var r := Uri(u.authority, u.segments + [IntToString(id)]);
    assert r.segments[..|u.segments|] == u.segments;
    r
  }

  /** The appended segment reads back as the id. */
  lemma AppendedIdReadsBack(u: Uri, id: int)
    requires INT_MIN <= id <= INT_MAX
    ensures ToInt(WithAppendedId(u, id).segments[|u.segments|]) == Some(id)
  {
    ToIntOfIntToString(id);
  }

  // ----- failures -----

  /** Why a provider call throws. */
  datatype Error =
    | IdRequired                  // `requireNotNull(...) { "Id is required" }`
    | NumberFormat(text: string)  // `toInt()` of a text that is not an Int
    | MissingFormatArgument       // `format` given fewer arguments than placeholders
    | CastFailed(key: string)     // `as String` or `as Int` on a missing or differently typed value
    | NotFound(id: int)           // `getPersonById` found no row

  // ----- the delete selector -----

  /** `piece.split("=").first()`: never holds `=`, and is the whole of a piece without `=`. */
  function Key(piece: string): (k: string)
    ensures '=' !in k
    ensures '=' !in piece ==> k == piece
  {
    assert '=' !in piece ==> Split(piece, '=') == [piece] by {
      if '=' !in piece { SplitWithout(piece, '='); }
    }
    Split(piece, '=')[0]
  }

  /** `piece.split("=").last()`: never holds `=`, and is the whole of a piece without `=`. */
  function Value(piece: string): (v: string)
    ensures '=' !in v
    ensures '=' !in piece ==> v == piece
  {
    assert '=' !in piece ==> Split(piece, '=') == [piece] by {
      if '=' !in piece { SplitWithout(piece, '='); }
    }
    var parts := Split(piece, '=');
    parts[|parts| - 1]
  }

  /** The key is the text before the first `=`. */
  lemma KeyIsTextBeforeFirstEquals(piece: string)
    ensures Key(piece) <= piece
    ensures |Key(piece)| < |piece| ==> piece[|Key(piece)|] == '='
  {
    var parts := Split(piece, '=');
    JoinSplit(piece, '=');
    if |parts| > 1 {
      assert Join(parts, '=') == parts[0] + ['='] + Join(parts[1..], '=');
    }
  }

  /** The value is the text after the last `=`. */
  lemma ValueIsTextAfterLastEquals(piece: string)
    ensures |Value(piece)| <= |piece| && piece[|piece| - |Value(piece)|..] == Value(piece)
    ensures |Value(piece)| < |piece| ==> piece[|piece| - |Value(piece)| - 1] == '='
  {
    var parts := Split(piece, '=');
    JoinSplit(piece, '=');
    if |parts| > 1 {
      JoinLast(parts, '=');
    }
  }

  /** A piece written as `key=value` gives back its key and value. */
  lemma KeyValueOf(k: string, v: string)
    requires '=' !in k && '=' !in v
    ensures Key(k + "=" + v) == k && Value(k + "=" + v) == v
  {
    assert k + "=" + v == k + ['='] + v;
    SplitAfter(k, v, '=');
    SplitWithout(v, '=');
  }

  /** `it.split("=").let { it.first() to it.last() }` for every piece. */
  function Entries(pieces: seq<string>): (r: seq<(string, string)>)
    ensures |r| == |pieces|
    ensures forall i :: 0 <= i < |r| ==> '=' !in r[i].0 && '=' !in r[i].1
  {
    seq(|pieces|, i requires 0 <= i < |pieces| => (Key(pieces[i]), Value(pieces[i])))
  }

  /** `.associate { ... }` of the pieces: a later key overwrites an earlier one. */
  function SelectorMap(pieces: seq<string>): (m: map<string, string>)
    ensures forall i :: 0 <= i < |pieces| ==> Key(pieces[i]) in m
    ensures |pieces| > 0 ==> m[Key(pieces[|pieces| - 1])] == Value(pieces[|pieces| - 1])
  {
    var entries := Entries(pieces);
    assert forall i :: 0 <= i < |pieces| ==> entries[i].0 == Key(pieces[i]);
    Associate(entries)
  }

  /** Some piece has key `k`. */
  predicate HasKey(pieces: seq<string>, k: string) {
    exists i :: 0 <= i < |pieces| && Key(pieces[i]) == k
  }

  /** Piece `j` is the last piece with key `k`. */
  predicate LastWithKey(pieces: seq<string>, k: string, j: int) {
    0 <= j < |pieces| && Key(pieces[j]) == k && forall i :: j < i < |pieces| ==> Key(pieces[i]) != k
  }

  /** A key is in the map iff some piece has it, and then it maps to the value of the last such piece. */
  lemma SelectorMapLookup(pieces: seq<string>, k: string)
    ensures k in SelectorMap(pieces) <==> HasKey(pieces, k)
    ensures k in SelectorMap(pieces) ==>
      exists j :: LastWithKey(pieces, k, j) && SelectorMap(pieces)[k] == Value(pieces[j])
  {
    var entries := Entries(pieces);
    AssociateLookup(entries, k);
    assert KeyOccurs(entries, k) <==> HasKey(pieces, k) by {
      if KeyOccurs(entries, k) {
        var i :| 0 <= i < |entries| && entries[i].0 == k;
        assert Key(pieces[i]) == k;
      }
      if HasKey(pieces, k) {
        var i :| 0 <= i < |pieces| && Key(pieces[i]) == k;
        assert entries[i].0 == k;
      }
    }
    if k in SelectorMap(pieces) {
      var j :| LastOccurrence(entries, k, j) && Associate(entries)[k] == entries[j].1;
      assert LastWithKey(pieces, k, j) by {
        forall i | j < i < |pieces| ensures Key(pieces[i]) != k {
          assert entries[i].0 != k;
        }
      }
    }
  }

  /**
   * `selection?.replace("?", "%s")?.format(*args).orEmpty()`: a null
   * selection reads as the empty text. `None` is the format failure.
   */
  function SelectorText(selection: Option<string>, args: seq<string>): (r: Option<string>)
    requires selection.Some? ==> '%' !in selection.value
    ensures selection.None? ==> r == Some("")
  {
    match selection
    case None => Some("")
    case Some(s) => Substitute(s, args)
  }

  /** The pieces the substituted selector splits into at `&`. */
  function SelectorPieces(selection: Option<string>, args: seq<string>): seq<string>
    requires selection.Some? ==> '%' !in selection.value
    requires SelectorText(selection, args).Some?
  {
    Split(SelectorText(selection, args).value, '&')
  }

  /**
   * The selector chain of `delete`, up to the `Person` it builds: the id
   * must be present and an Int, a present age must be an Int, the name
   * defaults to "" and the age to 0.
   */
  function ParseSelector(selection: Option<string>, args: seq<string>): (r: Result<Person, Error>)
    requires selection.Some? ==> '%' !in selection.value
    ensures r == Err(MissingFormatArgument) <==> SelectorText(selection, args).None?
  {
    match SelectorText(selection, args)
    case None => Err(MissingFormatArgument)
    case Some(text) => ParsePieces(Split(text, '&'))
  }

  /** The selector chain of `delete` from the `&`-separated pieces on. */
  function ParsePieces(pieces: seq<string>): (r: Result<Person, Error>)
    ensures r.Err? ==> r.error == IdRequired || r.error.NumberFormat?
  {
    var select := SelectorMap(pieces);
    if "id" !in select then Err(IdRequired)
    else
      match ToInt(select["id"])
      case None => Err(NumberFormat(select["id"]))
      case Some(id) =>
        var name := if "name" in select then select["name"] else "";
        if "age" !in select then Ok(Person(id, name, 0))
        else
          match ToInt(select["age"])
          case None => Err(NumberFormat(select["age"]))
          case Some(age) => Ok(Person(id, name, age))
  }

  /** Without a piece whose key is `id` the selector fails with "Id is required". */
  lemma ParseSelectorNeedsId(selection: Option<string>, args: seq<string>)
    requires selection.Some? ==> '%' !in selection.value
    requires SelectorText(selection, args).Some?
    requires !HasKey(SelectorPieces(selection, args), "id")
    ensures ParseSelector(selection, args) == Err(IdRequired)
  {
    SelectorMapLookup(SelectorPieces(selection, args), "id");
  }

  /** A null selection always fails with "Id is required". */
  lemma NullSelectionNeedsId(args: seq<string>)
    ensures ParseSelector(None, args) == Err(IdRequired)
  {
    assert SelectorPieces(None, args) == [""];
    ParseSelectorNeedsId(None, args);
  }

  /** The parsed id is the value of the last piece whose key is `id`. */
  lemma ParseSelectorTakesLastId(selection: Option<string>, args: seq<string>)
    requires selection.Some? ==> '%' !in selection.value
    requires ParseSelector(selection, args).Ok?
    ensures SelectorText(selection, args).Some?
    ensures exists j :: (LastWithKey(SelectorPieces(selection, args), "id", j) &&
      ToInt(Value(SelectorPieces(selection, args)[j])) == Some(ParseSelector(selection, args).value.id))
  {
    var pieces := SelectorPieces(selection, args);
    assert ParseSelector(selection, args) == ParsePieces(pieces);
    SelectorMapLookup(pieces, "id");
  }

  /** A key has at most one last piece. */
  lemma LastWithKeyUnique(pieces: seq<string>, k: string, i: int, j: int)
    requires LastWithKey(pieces, k, i) && LastWithKey(pieces, k, j)
    ensures i == j
  {
  }

  /**
   * Every outcome of the selector chain, in terms of the pieces: no `id`
   * piece fails with "Id is required"; the last `id` piece must read as an
   * Int; then a last `age` piece must read as an Int too, and gives the
   * age, which is 0 without one; the name is the last `name` piece's value,
   * or "" without one.
   */
  lemma ParseSelectorOutcomes(selection: Option<string>, args: seq<string>)
    requires selection.Some? ==> '%' !in selection.value
    requires SelectorText(selection, args).Some?
    ensures var pieces := SelectorPieces(selection, args);
      !HasKey(pieces, "id") ==> ParseSelector(selection, args) == Err(IdRequired)
    ensures var pieces := SelectorPieces(selection, args);
      forall j :: LastWithKey(pieces, "id", j) && ToInt(Value(pieces[j])).None? ==>
        ParseSelector(selection, args) == Err(NumberFormat(Value(pieces[j])))
    ensures var pieces := SelectorPieces(selection, args);
      forall j :: LastWithKey(pieces, "id", j) && ToInt(Value(pieces[j])).Some? && !HasKey(pieces, "age") ==>
        var r := ParseSelector(selection, args);
        r.Ok? && r.value.id == ToInt(Value(pieces[j])).value && r.value.age == 0
    ensures var pieces := SelectorPieces(selection, args);
      forall j, a ::
        (LastWithKey(pieces, "id", j) && ToInt(Value(pieces[j])).Some? &&
         LastWithKey(pieces, "age", a) && ToInt(Value(pieces[a])).None?) ==>
        ParseSelector(selection, args) == Err(NumberFormat(Value(pieces[a])))
    ensures var pieces := SelectorPieces(selection, args);
      forall j, a ::
        (LastWithKey(pieces, "id", j) && ToInt(Value(pieces[j])).Some? &&
         LastWithKey(pieces, "age", a) && ToInt(Value(pieces[a])).Some?) ==>
        var r := ParseSelector(selection, args);
        r.Ok? && r.value.id == ToInt(Value(pieces[j])).value && r.value.age == ToInt(Value(pieces[a])).value
    ensures var pieces := SelectorPieces(selection, args);
      var r := ParseSelector(selection, args);
      r.Ok? ==>
        (!HasKey(pieces, "name") ==> r.value.name == "") &&
        (forall n :: LastWithKey(pieces, "name", n) ==> r.value.name == Value(pieces[n]))
  {
    var pieces := SelectorPieces(selection, args);
    assert ParseSelector(selection, args) == ParsePieces(pieces);
    ParsePiecesOutcomes(pieces);
  }

  /** `ParseSelectorOutcomes` for the pieces themselves. */
  lemma ParsePiecesOutcomes(pieces: seq<string>)
    ensures !HasKey(pieces, "id") ==> ParsePieces(pieces) == Err(IdRequired)
    ensures forall j :: LastWithKey(pieces, "id", j) && ToInt(Value(pieces[j])).None? ==>
      ParsePieces(pieces) == Err(NumberFormat(Value(pieces[j])))
    ensures forall j :: LastWithKey(pieces, "id", j) && ToInt(Value(pieces[j])).Some? && !HasKey(pieces, "age") ==>
      var r := ParsePieces(pieces);
      r.Ok? && r.value.id == ToInt(Value(pieces[j])).value && r.value.age == 0
    ensures forall j, a ::
      (LastWithKey(pieces, "id", j) && ToInt(Value(pieces[j])).Some? &&
       LastWithKey(pieces, "age", a) && ToInt(Value(pieces[a])).None?) ==>
      ParsePieces(pieces) == Err(NumberFormat(Value(pieces[a])))
    ensures forall j, a ::
      (LastWithKey(pieces, "id", j) && ToInt(Value(pieces[j])).Some? &&
       LastWithKey(pieces, "age", a) && ToInt(Value(pieces[a])).Some?) ==>
      var r := ParsePieces(pieces);
      r.Ok? && r.value.id == ToInt(Value(pieces[j])).value && r.value.age == ToInt(Value(pieces[a])).value
    ensures var r := ParsePieces(pieces);
      r.Ok? ==>
        (!HasKey(pieces, "name") ==> r.value.name == "") &&
        (forall n :: LastWithKey(pieces, "name", n) ==> r.value.name == Value(pieces[n]))
  {
    var select := SelectorMap(pieces);
    LastValue(pieces, "id");
    if "id" in select && ToInt(select["id"]).Some? {
      LastValue(pieces, "age");
      LastValue(pieces, "name");
    }
  }

  /** The map holds a key iff some piece has it, with the value of every last piece with it. */
  lemma LastValue(pieces: seq<string>, k: string)
    ensures k in SelectorMap(pieces) <==> HasKey(pieces, k)
    ensures forall j :: LastWithKey(pieces, k, j) ==> k in SelectorMap(pieces) && SelectorMap(pieces)[k] == Value(pieces[j])
  {
    SelectorMapLookup(pieces, k);
    forall j | LastWithKey(pieces, k, j)
      ensures k in SelectorMap(pieces) && SelectorMap(pieces)[k] == Value(pieces[j])
    {
      assert HasKey(pieces, k);
      var j' :| LastWithKey(pieces, k, j') && SelectorMap(pieces)[k] == Value(pieces[j']);
      LastWithKeyUnique(pieces, k, j, j');
    }
  }

  /** A selector of the form the parser reads, with every field as a placeholder. */
  const DELETE_SELECTION: string := "id=" + "?" + ("&name=" + "?" + ("&age=" + "?" + ""))

  /** The arguments that go with `DELETE_SELECTION`. */
  function DeleteArgs(p: Person): seq<string> {
    [IntToString(p.id), p.name, IntToString(p.age)]
  }

  lemma IntToStringHasNoSeparators(n: int)
    ensures '&' !in IntToString(n) && '=' !in IntToString(n)
  {
    var s := IntToString(n);
    if n < 0 {
      assert s[1..] == NatToString(-n);
      forall i | 0 <= i < |s| ensures s[i] != '&' && s[i] != '=' {
        if i > 0 { assert s[i] == NatToString(-n)[i - 1]; }
      }
    }
  }

  /** Four pieces split at three delimiters. */
  lemma SplitFour(h0: string, h1: string, h2: string, h3: string, d: char)
    requires d !in h0 && d !in h1 && d !in h2 && d !in h3
    ensures Split(h0 + [d] + (h1 + [d] + (h2 + [d] + h3)), d) == [h0, h1, h2, h3]
  {
    var t2 := h2 + [d] + h3;
    var t1 := h1 + [d] + t2;
    SplitWithout(h3, d);
    SplitAfter(h2, h3, d);
    assert Split(t2, d) == [h2, h3];
    SplitAfter(h1, t2, d);
    assert Split(t1, d) == [h1, h2, h3];
    SplitAfter(h0, t1, d);
  }

  lemma InterleaveFour(h0: string, h1: string, h2: string, h3: string, a0: string, a1: string, a2: string)
    ensures Interleave([h0, h1, h2, h3], [a0, a1, a2]) == h0 + a0 + (h1 + a1 + (h2 + a2 + h3))
  {
    var holes, args := [h0, h1, h2, h3], [a0, a1, a2];
    assert holes[1..] == [h1, h2, h3] && args[1..] == [a1, a2];
    assert [h1, h2, h3][1..] == [h2, h3] && [a1, a2][1..] == [a2];
    assert [h2, h3][1..] == [h3] && [a2][1..] == [];
    assert Interleave([h3], []) == h3;
    assert Interleave([h2, h3], [a2]) == h2 + a2 + h3;
    assert Interleave([h1, h2, h3], [a1, a2]) == h1 + a1 + (h2 + a2 + h3);
  }

  /** Three placeholders, each after a placeholder-free text. */
  lemma SubstituteThree(h0: string, h1: string, h2: string, a0: string, a1: string, a2: string)
    requires '?' !in h0 && '?' !in h1 && '?' !in h2
    requires '%' !in h0 && '%' !in h1 && '%' !in h2
    ensures '%' !in h0 + ['?'] + (h1 + ['?'] + (h2 + ['?'] + ""))
    ensures Substitute(h0 + ['?'] + (h1 + ['?'] + (h2 + ['?'] + "")), [a0, a1, a2]) == Some(h0 + a0 + (h1 + a1 + (h2 + a2 + "")))
  {
    var t0 := h0 + ['?'] + (h1 + ['?'] + (h2 + ['?'] + ""));
    SplitFour(h0, h1, h2, "", '?');
    assert '%' !in t0;
    SubstituteInterleaves(t0, [a0, a1, a2]);
    InterleaveFour(h0, h1, h2, "", a0, a1, a2);
  }

  /** Substituting three arguments into `DELETE_SELECTION`. */
  lemma SubstituteDeleteSelection(a0: string, a1: string, a2: string)
    ensures Substitute(DELETE_SELECTION, [a0, a1, a2]) == Some("id=" + a0 + ("&name=" + a1 + ("&age=" + a2)))
  {
    SubstituteThree("id=", "&name=", "&age=", a0, a1, a2);
    assert "&age=" + a2 + "" == "&age=" + a2;
  }

  /** Three `&`-free pieces joined by `&` split back into them. */
  lemma SplitThree(p0: string, p1: string, p2: string)
    requires '&' !in p0 && '&' !in p1 && '&' !in p2
    ensures Split(p0 + ['&'] + (p1 + ['&'] + p2), '&') == [p0, p1, p2]
  {
    SplitWithout(p2, '&');
    SplitAfter(p1, p2, '&');
    SplitAfter(p0, p1 + ['&'] + p2, '&');
  }

  /** The map of three pieces with distinct keys. */
  lemma SelectorMapThree(k0: string, k1: string, k2: string, v0: string, v1: string, v2: string)
    requires '=' !in k0 && '=' !in k1 && '=' !in k2
    requires '=' !in v0 && '=' !in v1 && '=' !in v2
    ensures SelectorMap([k0 + "=" + v0, k1 + "=" + v1, k2 + "=" + v2]) == map[k0 := v0][k1 := v1][k2 := v2]
  {
    var q0, q1, q2 := k0 + "=" + v0, k1 + "=" + v1, k2 + "=" + v2;
    KeyValueOf(k0, v0);
    KeyValueOf(k1, v1);
    KeyValueOf(k2, v2);
    var pairs := [(k0, v0), (k1, v1), (k2, v2)];
    assert Entries([q0, q1, q2]) == pairs;
    assert pairs[..2] == [(k0, v0), (k1, v1)];
    assert [(k0, v0), (k1, v1)][..1] == [(k0, v0)];
    assert [(k0, v0)][..0] == [];
    assert Associate([(k0, v0)]) == map[k0 := v0];
    assert Associate([(k0, v0), (k1, v1)]) == map[k0 := v0][k1 := v1];
    assert Associate(pairs) == map[k0 := v0][k1 := v1][k2 := v2];
  }

  /** The substituted selector as three `key=value` pieces joined by `&`. */
  lemma DeleteTextPieces(a0: string, a1: string, a2: string)
    ensures "id=" + a0 + ("&name=" + a1 + ("&age=" + a2)) ==
      ("id" + "=" + a0) + ['&'] + (("name" + "=" + a1) + ['&'] + ("age" + "=" + a2))
  {
    assert "id=" == "id" + "=";
    assert "&name=" == ['&'] + ("name" + "=");
    assert "&age=" == ['&'] + ("age" + "=");
  }

  /** The text and pieces of `DELETE_SELECTION` with three arguments without separators. */
  lemma DeleteSelectorPieces(a0: string, a1: string, a2: string)
    requires '&' !in a0 && '=' !in a0 && '&' !in a1 && '=' !in a1 && '&' !in a2 && '=' !in a2
    ensures SelectorText(Some(DELETE_SELECTION), [a0, a1, a2]) == Some("id=" + a0 + ("&name=" + a1 + ("&age=" + a2)))
    ensures SelectorPieces(Some(DELETE_SELECTION), [a0, a1, a2]) == ["id" + "=" + a0, "name" + "=" + a1, "age" + "=" + a2]
  {
    SubstituteDeleteSelection(a0, a1, a2);
    DeleteTextPieces(a0, a1, a2);
    var p0, p1, p2 := "id" + "=" + a0, "name" + "=" + a1, "age" + "=" + a2;
    assert '&' !in p0 && '&' !in p1 && '&' !in p2;
    SplitThree(p0, p1, p2);
  }

  /** The map `DELETE_SELECTION` builds from three arguments without separators. */
  lemma DeleteSelectorMapOf(a0: string, a1: string, a2: string)
    requires '&' !in a0 && '=' !in a0 && '&' !in a1 && '=' !in a1 && '&' !in a2 && '=' !in a2
    ensures SelectorText(Some(DELETE_SELECTION), [a0, a1, a2]).Some?
    ensures SelectorMap(SelectorPieces(Some(DELETE_SELECTION), [a0, a1, a2])) == map["id" := a0]["name" := a1]["age" := a2]
  {
    DeleteSelectorPieces(a0, a1, a2);
    SelectorMapThree("id", "name", "age", a0, a1, a2);
  }

  /** The map the selector written for a person builds. */
  lemma DeleteSelectorMap(p: Person)
    requires '&' !in p.name && '=' !in p.name
    ensures SelectorText(Some(DELETE_SELECTION), DeleteArgs(p)).Some?
    ensures SelectorMap(SelectorPieces(Some(DELETE_SELECTION), DeleteArgs(p))) ==
      map["id" := IntToString(p.id)]["name" := p.name]["age" := IntToString(p.age)]
  {
    IntToStringHasNoSeparators(p.id);
    IntToStringHasNoSeparators(p.age);
    DeleteSelectorMapOf(IntToString(p.id), p.name, IntToString(p.age));
  }

  /** Parsing the selector written for a person gives back that person. */
  lemma ParseSelectorRoundTrip(p: Person)
    requires INT_MIN <= p.id <= INT_MAX && INT_MIN <= p.age <= INT_MAX
    requires '&' !in p.name && '=' !in p.name
    ensures ParseSelector(Some(DELETE_SELECTION), DeleteArgs(p)) == Ok(p)
  {
    DeleteSelectorMap(p);
    var select := map["id" := IntToString(p.id)]["name" := p.name]["age" := IntToString(p.age)];
    assert "id" in select && select["id"] == IntToString(p.id);
    assert "name" in select && select["name"] == p.name;
    assert "age" in select && select["age"] == IntToString(p.age);
    ToIntOfIntToString(p.id);
    ToIntOfIntToString(p.age);
  }

  // ----- the partial update -----

  /** A value held in a `ContentValues`. */
  datatype ContentValue = StringValue(s: string) | IntValue(i: int) | OtherValue

  /** `ContentValues`: keys to values. */
  type ContentValues = map<string, ContentValue>

  /** `values?.get(key) as? String`. */
  function StringField(values: Option<ContentValues>, key: string): (r: Option<string>)
    ensures r.Some? <==> values.Some? && key in values.value && values.value[key].StringValue?
    ensures r.Some? ==> values.value[key] == StringValue(r.value)
  {
    if values.Some? && key in values.value && values.value[key].StringValue? then Some(values.value[key].s) else None
  }

  /** `values?.get(key) as? Int`. */
  function IntField(values: Option<ContentValues>, key: string): (r: Option<int>)
    ensures r.Some? <==> values.Some? && key in values.value && values.value[key].IntValue?
    ensures r.Some? ==> values.value[key] == IntValue(r.value)
  {
    if values.Some? && key in values.value && values.value[key].IntValue? then Some(values.value[key].i) else None
  }

  /**
   * `currentPerson.copy(name = ..., age = ...)`: a supplied String name and
   * a supplied Int age replace the current ones; the id is kept.
   */
  function Merge(current: Person, values: ContentValues): (r: Person)
    ensures r.id == current.id
    ensures StringField(Some(values), "name").Some? ==> r.name == StringField(Some(values), "name").value
    ensures StringField(Some(values), "name").None? ==> r.name == current.name
    ensures IntField(Some(values), "age").Some? ==> r.age == IntField(Some(values), "age").value
    ensures IntField(Some(values), "age").None? ==> r.age == current.age
  {
    var name := StringField(Some(values), "name");
    var age := IntField(Some(values), "age");
    current.(name := if name.Some? then name.value else current.name,
             age := if age.Some? then age.value else current.age)
  }

  /** Merging the same values twice is merging them once. */
  lemma MergeIdempotent(current: Person, values: ContentValues)
    ensures Merge(Merge(current, values), values) == Merge(current, values)
  {
  }

  /** Values that supply neither field leave the person as it is. */
  lemma MergeNothing(current: Person, values: ContentValues)
    requires "name" !in values && "age" !in values
    ensures Merge(current, values) == current
  {
  }

  /** Values that supply both fields replace both. */
  lemma MergeEverything(current: Person, name: string, age: int, values: ContentValues)
    requires "name" in values && values["name"] == StringValue(name)
    requires "age" in values && values["age"] == IntValue(age)
    ensures Merge(current, values) == Person(current.id, name, age)
  {
  }

  // ----- the provider -----

  /**
   * The provider object. `onCreate` gives it its table, modelled by the
   * constructor; `notifications` lists the URIs passed to `notifyChange`,
   * oldest first.
   */
  class ContentProvider {
    const dao: PersonDao
    var notifications: seq<Uri>

    ghost predicate Valid()
      reads this, dao
    {
      dao.Valid()
    }

    /** `onCreate`: an empty table and no notification yet. */
    constructor ()
      ensures Valid() && fresh(dao)
      ensures dao.rows == [] && dao.nextId == 1 && notifications == []
    {
      dao := new PersonDao();
      notifications := [];
    }

    /** `query(uri, ...)`: every row, the rows named after the second path segment, or null. */
    function Query(u: Uri): (r: Option<seq<Person>>)
      reads this, dao
      requires Valid()
      ensures Route(u) == PERSON_TABLE ==> r == Some(dao.rows)
      ensures Route(u) == PERSON_BY_NAME ==>
        r.Some? && DistinctIds(r.value) && forall p :: p in r.value <==> p in dao.rows && p.name == TABLE_NAME
      ensures Route(u) == NO_MATCH ==> r.None?
    {
      var code := Route(u);
      if code == PERSON_TABLE then Some(dao.SelectAll())
      else if code == PERSON_BY_NAME then Some(dao.SelectByName(u.segments[1]))
      else None
    }

    /**
     * `insert(uri, values)`: on the table URI, stores a person with the
     * supplied String name and Int age under a fresh id, announces and
     * returns the URI with that id appended.
     */
    method Insert(u: Uri, values: Option<ContentValues>) returns (r: Result<Option<Uri>, Error>)
      requires Valid()
      modifies this, dao
      ensures Valid()
      ensures Route(u) != PERSON_TABLE ==> r == Ok(None) && unchanged(this, dao)
      ensures Route(u) == PERSON_TABLE && StringField(values, "name").None? ==>
        r == Err(CastFailed("name")) && unchanged(this, dao)
      ensures Route(u) == PERSON_TABLE && StringField(values, "name").Some? && IntField(values, "age").None? ==>
        r == Err(CastFailed("age")) && unchanged(this, dao)
      ensures Route(u) == PERSON_TABLE && StringField(values, "name").Some? && IntField(values, "age").Some? ==>
        var id := old(dao.nextId);
        id >= 1 && !HasId(old(dao.rows), id) && dao.nextId == id + 1 &&
        dao.rows == old(dao.rows) + [Person(id, StringField(values, "name").value, IntField(values, "age").value)] &&
        r == Ok(Some(WithAppendedId(u, id))) &&
        notifications == old(notifications) + [WithAppendedId(u, id)]
    {
      if Route(u) != PERSON_TABLE {
        return Ok(None);
      }
      var name := StringField(values, "name");
      if name.None? {
        return Err(CastFailed("name"));
      }
      var age := IntField(values, "age");
      if age.None? {
        return Err(CastFailed("age"));
      }
      var id := dao.Insert(Person(UNSET_ID, name.value, age.value));
      var inserted := WithAppendedId(u, id);
      notifications := notifications + [inserted];
      r := Ok(Some(inserted));
    }

    /**
     * `delete(uri, selection, selectionArgs)`: on the table URI, deletes
     * the row whose id the selector names and returns how many rows went;
     * the selector's name and age decide nothing. A change is announced
     * only when a row went.
     */
    method Delete(u: Uri, selection: Option<string>, args: seq<string>) returns (r: Result<nat, Error>)
      requires Valid()
      requires Route(u) == PERSON_TABLE && selection.Some? ==> '%' !in selection.value
      modifies this, dao
      ensures Valid()
      ensures Route(u) != PERSON_TABLE ==> r == Ok(0) && unchanged(this, dao)
      ensures Route(u) == PERSON_TABLE && ParseSelector(selection, args).Err? ==>
        r == Err(ParseSelector(selection, args).error) && unchanged(this, dao)
      ensures Route(u) == PERSON_TABLE && ParseSelector(selection, args).Ok? ==>
        var id := ParseSelector(selection, args).value.id;
        var count := if HasId(old(dao.rows), id) then 1 else 0;
        dao.rows == Where(old(dao.rows), IdIsNot(id)) && dao.nextId == old(dao.nextId) &&
        r == Ok(count) &&
        notifications == old(notifications) + (if count != 0 then [u] else [])
    {
      if Route(u) != PERSON_TABLE {
        return Ok(0);
      }
      var parsed := ParseSelector(selection, args);
      if parsed.Err? {
        return Err(parsed.error);
      }
      var count := dao.DeleteById(parsed.value.id);
      if count != 0 {
        notifications := notifications + [u];
      }
      r := Ok(count);
    }

    /**
     * `update(uri, values, ...)`: on the table URI, the row with the Int
     * `id` of `values` gets the supplied name and age and keeps the rest;
     * returns how many rows changed and announces a change when one did.
     * The selection and its arguments are ignored.
     */
    method Update(u: Uri, values: Option<ContentValues>, selection: Option<string>, args: seq<string>)
      returns (r: Result<nat, Error>)
      requires Valid()
      modifies this, dao
      ensures Valid()
      ensures Route(u) != PERSON_TABLE ==> r == Ok(0) && unchanged(this, dao)
      ensures Route(u) == PERSON_TABLE && IntField(values, "id").None? ==>
        r == Err(CastFailed("id")) && unchanged(this, dao)
      ensures Route(u) == PERSON_TABLE && IntField(values, "id").Some? && !HasId(old(dao.rows), IntField(values, "id").value) ==>
        r == Err(NotFound(IntField(values, "id").value)) && unchanged(this, dao)
      ensures Route(u) == PERSON_TABLE && IntField(values, "id").Some? && HasId(old(dao.rows), IntField(values, "id").value) ==>
        var current := Find(old(dao.rows), IntField(values, "id").value).value;
        dao.rows == ReplaceById(old(dao.rows), Merge(current, values.value)) && dao.nextId == old(dao.nextId) &&
        r == Ok(1) &&
        notifications == old(notifications) + [u]
    {
      if Route(u) != PERSON_TABLE {
        return Ok(0);
      }
      var id := IntField(values, "id");
      if id.None? {
        return Err(CastFailed("id"));
      }
      var current := dao.GetPersonById(id.value);
      if current.None? {
        return Err(NotFound(id.value));
      }
      var count := dao.Update(Merge(current.value, values.value));
      if count != 0 {
        notifications := notifications + [u];
      }
      r := Ok(count);
    }
  }

  /** A fresh provider holding one person, inserted through the table URI. */
  method ProviderWith(name: string, age: int) returns (provider: ContentProvider)
    ensures fresh(provider) && fresh(provider.dao) && provider.Valid()
    ensures provider.dao.rows == [Person(1, name, age)] && provider.dao.nextId == 2
    ensures provider.notifications == [WithAppendedId(Uri(PROVIDER, [TABLE_NAME]), 1)]
  {
    provider := new ContentProvider();
    var table := Uri(PROVIDER, [TABLE_NAME]);
    var values := Some(map["name" := StringValue(name), "age" := IntValue(age)]);
    assert StringField(values, "name") == Some(name) && IntField(values, "age") == Some(age);
    var inserted := provider.Insert(table, values);
    assert inserted == Ok(Some(WithAppendedId(table, 1)));
  }

  /**
   * Updating the age of the stored person keeps its name; updating an
   * unknown id fails and changes nothing.
   */
  method UpdateSession(name: string, age: int, newAge: int) returns (rows: seq<Person>, missing: Result<nat, Error>)
    ensures rows == [Person(1, name, newAge)]
    ensures missing == Err(NotFound(7))
  {
    var provider := ProviderWith(name, age);
    var table := Uri(PROVIDER, [TABLE_NAME]);
    var older := Some(map["id" := IntValue(1), "age" := IntValue(newAge)]);
    assert IntField(older, "id") == Some(1) && IntField(older, "age") == Some(newAge) && StringField(older, "name").None?;
    assert provider.dao.rows[0].id == 1;
    var updated := provider.Update(table, older, None, []);
    assert updated == Ok(1);
    assert Find([Person(1, name, age)], 1) == Some(Person(1, name, age));
    assert Merge(Person(1, name, age), older.value) == Person(1, name, newAge);
    var replaced := ReplaceById([Person(1, name, age)], Person(1, name, newAge));
    assert |replaced| == 1 && replaced[0] == Person(1, name, newAge);
    assert replaced == [Person(1, name, newAge)];
    assert provider.dao.rows == [Person(1, name, newAge)];
    assert provider.Query(table) == Some([Person(1, name, newAge)]);

    var unknown := Some(map["id" := IntValue(7)]);
    assert IntField(unknown, "id") == Some(7);
    missing := provider.Update(table, unknown, None, []);
    rows := provider.dao.rows;
  }

  /** Two delete requests that change nothing: no selection, and a URI that does not route. */
  method RejectedDeletes(name: string, age: int, selection: Option<string>, args: seq<string>)
    returns (noId: Result<nat, Error>, elsewhere: Result<nat, Error>, rows: seq<Person>)
    ensures noId == Err(IdRequired) && elsewhere == Ok(0)
    ensures rows == [Person(1, name, age)]
  {
    var provider := ProviderWith(name, age);
    var table := Uri(PROVIDER, [TABLE_NAME]);

    NullSelectionNeedsId(args);
    noId := provider.Delete(table, None, args);
    assert provider.dao.rows == [Person(1, name, age)];

    DomainUriNeverRoutes();
    elsewhere := provider.Delete(DOMAIN_URI, selection, args);
    rows := provider.dao.rows;
  }

  /**
   * Deleting the stored person with a selector that names its id (such as
   * `DELETE_SELECTION` with `DeleteArgs`, by `ParseSelectorRoundTrip`);
   * a second delete with the same selector finds no row.
   */
  method DeleteSession(name: string, age: int, selection: Option<string>, args: seq<string>)
    returns (deleted: Result<nat, Error>, again: Result<nat, Error>, rows: seq<Person>)
    requires selection.Some? ==> '%' !in selection.value
    requires ParseSelector(selection, args).Ok? && ParseSelector(selection, args).value.id == 1
    ensures deleted == Ok(1) && again == Ok(0)
    ensures rows == []
  {
    var provider := ProviderWith(name, age);
    var table := Uri(PROVIDER, [TABLE_NAME]);
    var stored := Person(1, name, age);

    deleted := provider.Delete(table, selection, args);
    assert [] + [stored] == [stored];
    DeleteUndoesAppend([], stored);
    assert provider.dao.rows == [];

    again := provider.Delete(table, selection, args);
    rows := provider.dao.rows;
  }

  /**
   * Inserting a person and then deleting with a selector that names the id
   * the insert was given leaves the table as it was, with two notifications.
   */
  method InsertThenDelete(provider: ContentProvider, name: string, age: int, selection: Option<string>, args: seq<string>)
    requires provider.Valid()
    requires selection.Some? ==> '%' !in selection.value
    requires ParseSelector(selection, args).Ok? && ParseSelector(selection, args).value.id == provider.dao.nextId
    modifies provider, provider.dao
    ensures provider.Valid()
    ensures provider.dao.rows == old(provider.dao.rows) && provider.dao.nextId == old(provider.dao.nextId) + 1
    ensures provider.notifications == old(provider.notifications) +
      [WithAppendedId(Uri(PROVIDER, [TABLE_NAME]), old(provider.dao.nextId)), Uri(PROVIDER, [TABLE_NAME])]
  {
    var table := Uri(PROVIDER, [TABLE_NAME]);
    var values := Some(map["name" := StringValue(name), "age" := IntValue(age)]);
    assert StringField(values, "name") == Some(name) && IntField(values, "age") == Some(age);
    ghost var before := provider.dao.rows;
    var id := provider.dao.nextId;
    var inserted := provider.Insert(table, values);
    assert provider.dao.rows == before + [Person(id, name, age)];
    assert HasId(provider.dao.rows, id) by {
      assert provider.dao.rows[|before|].id == id;
    }
    var deleted := provider.Delete(table, selection, args);
    assert deleted == Ok(1);
    DeleteUndoesAppend(before, Person(id, name, age));
  }
}
