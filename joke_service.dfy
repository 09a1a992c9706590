/**
 * The joke service: fetching from the upstream joke API (its outcome is a
 * parameter here) with failures mapped to HTTP 503, and the mascot
 * substitution applied to joke text.
 */
module JokeService {
  import opened Text

  // ---------------------------------------------------------------------------
  // Values standing for Python's None, JSON fields and raised exceptions
  // ---------------------------------------------------------------------------

  /** A Python value that may be `None`. */
  datatype Option<T> = None | Some(value: T)

  /** A key of a decoded JSON object: absent, present with `null`, or present with a value. */
  datatype Field<T> = Missing | Null | Present(value: T)

  /** `d.get(key)`: `None` when the key is absent or holds `null`. */
  function Get<T>(f: Field<T>): (r: Option<T>)
    ensures r.Some? <==> f.Present?
    ensures f.Present? ==> r.value == f.value
  {
    if f.Present? then Some(f.value) else None
  }

  /** `d.get(key, default)`: the default only when the key is absent; a `null` stays `None`. */
  function GetOr<T>(f: Field<T>, default: T): (r: Option<T>)
    ensures r.None? <==> f.Null?
    ensures f.Missing? ==> r == Some(default)
    ensures f.Present? ==> r == Some(f.value)
  {
    match f
    case Missing => Some(default)
    case Null => None
    case Present(v) => Some(v)
  }

  /** The upstream joke object: `id`, `value`, `categories`, `created_at`, `updated_at`. */
  datatype JokePayload = JokePayload(
    id: Field<string>,
    value: Field<string>,
    categories: Field<seq<string>>,
    createdAt: Field<string>,
    updatedAt: Field<string>)

  /**
   * What one GET against the upstream API produced: a transport-level failure
   * (connection error, timeout), or a response with its status code and its
   * decoded JSON body.
   */
  datatype Reply<T> = TransportFailure | Response(statusCode: int, body: T)

  /** FastAPI's `HTTPException(status_code, detail)`. */
  datatype HttpException = HttpException(statusCode: int, detail: string)

  /** A value, or the `HTTPException` raised instead of it. */
  datatype Result<T> = Ok(value: T) | Err(error: HttpException)

  const ServiceUnavailable: int := 503

  const RandomJokeDetail: string := "Unable to fetch joke from external service"
  const CategoriesDetail: string := "Unable to fetch categories"

  function CategoryJokeDetail(category: string): string {
    "Unable to fetch joke from category '" + category + "'"
  }

  // ---------------------------------------------------------------------------
  // Upstream calls
  // ---------------------------------------------------------------------------

  /** httpx's `raise_for_status` passes exactly the 2xx status codes. */
  predicate IsSuccess(statusCode: int) {
    200 <= statusCode < 300
  }

  /** The reply got through the transport and `raise_for_status`. */
  predicate Succeeded<T>(reply: Reply<T>) {
    reply.Response? && IsSuccess(reply.statusCode)
  }

  /**
   * The shape shared by the three upstream calls: the decoded body on a 2xx
   * response; every `httpx.HTTPError` (transport failure or non-2xx status)
   * becomes a 503 carrying the call's fixed detail.
   */
  function Fetch<T>(reply: Reply<T>, detail: string): (r: Result<T>)
    ensures r.Ok? <==> Succeeded(reply)
    ensures r.Ok? ==> r.value == reply.body
    ensures r.Err? ==> r.error == HttpException(ServiceUnavailable, detail)
  {
    match reply
    case TransportFailure => Err(HttpException(ServiceUnavailable, detail))
    case Response(code, body) =>
      if IsSuccess(code) then Ok(body) else Err(HttpException(ServiceUnavailable, detail))
  }

  /** `fetch_random_joke`: GET `/random`. */
  function FetchRandomJoke(reply: Reply<JokePayload>): (r: Result<JokePayload>)
    ensures r.Ok? <==> Succeeded(reply)
    ensures r.Ok? ==> r.value == reply.body
    ensures r.Err? ==> r.error == HttpException(503, "Unable to fetch joke from external service")
  {
    Fetch(reply, RandomJokeDetail)
  }

  /** `fetch_joke_by_category`: GET `/random?category=...`; the detail names the category. */
  function FetchJokeByCategory(reply: Reply<JokePayload>, category: string): (r: Result<JokePayload>)
    ensures r.Ok? <==> Succeeded(reply)
    ensures r.Ok? ==> r.value == reply.body
    ensures r.Err? ==> r.error == HttpException(503, "Unable to fetch joke from category '" + category + "'")
  {
    Fetch(reply, CategoryJokeDetail(category))
  }

  /** `get_categories`: GET `/categories`. */
  function GetCategories(reply: Reply<seq<string>>): (r: Result<seq<string>>)
    ensures r.Ok? <==> Succeeded(reply)
    ensures r.Ok? ==> r.value == reply.body
    ensures r.Err? ==> r.error == HttpException(503, "Unable to fetch categories")
  {
    Fetch(reply, CategoriesDetail)
  }

  /** Every failure detail begins with "Unable to fetch", whatever the category. */
  lemma FailureDetailsSayUnableToFetch(rj: Reply<JokePayload>, cj: Reply<JokePayload>, category: string, cs: Reply<seq<string>>)
    ensures FetchRandomJoke(rj).Err? ==> StartsWith(FetchRandomJoke(rj).error.detail, "Unable to fetch")
    ensures FetchJokeByCategory(cj, category).Err? ==>
              StartsWith(FetchJokeByCategory(cj, category).error.detail, "Unable to fetch")
    ensures GetCategories(cs).Err? ==> StartsWith(GetCategories(cs).error.detail, "Unable to fetch")
  {
    assert CategoryJokeDetail(category)[..15] == "Unable to fetch";
  }

  // ---------------------------------------------------------------------------
  // Mascot substitution
  // ---------------------------------------------------------------------------

  const DefaultMascot: string := "Meow Norris"
  const WoofMascot: string := "Woof Norris"

  const TitleName: string := "Chuck Norris"
  const LowerName: string := "chuck norris"
  const UpperName: string := "CHUCK NORRIS"

  /** The (pattern, replacement) pairs, in the order they are applied. */
  function Replacements(mascot: string): seq<(string, string)> {
    [(TitleName, mascot), (LowerName, Lower(mascot)), (UpperName, Upper(mascot))]
  }

  /** The replacement pairs applied one after another, the first pair first. */
  function ApplyInOrder(s: string, rs: seq<(string, string)>): string
    decreases |rs|
  {
    if rs == [] then s
    else ReplaceAll(ApplyInOrder(s, rs[..|rs| - 1]), rs[|rs| - 1].0, rs[|rs| - 1].1)
  }

  /**
   * What `transform_to_meow_norris` returns: empty text as it is, otherwise the
   * three replace-all passes composed in order.
   */
  function Transform(jokeText: string, mascot: string): string {
    if jokeText == [] then jokeText
    else
      ReplaceAll(
        ReplaceAll(ReplaceAll(jokeText, TitleName, mascot), LowerName, Lower(mascot)),
        UpperName, Upper(mascot))
  }

  /** `transform_to_meow_norris`: the loop over the replacement list. */
  method TransformToMeowNorris(jokeText: string, mascot: string) returns (transformed: string)
    ensures transformed == Transform(jokeText, mascot)
  {
    if jokeText == [] {
      return jokeText;
    }
    var replacements := Replacements(mascot);
    transformed := jokeText;
    for i := 0 to |replacements|
      invariant transformed == ApplyInOrder(jokeText, replacements[..i])
    {
      var (pat, rep) := replacements[i];
      assert replacements[..i + 1][..i] == replacements[..i];
      transformed := ReplaceAll(transformed, pat, rep);
    }
    var r1 := ReplaceAll(jokeText, TitleName, mascot);
    var r2 := ReplaceAll(r1, LowerName, Lower(mascot));
    assert replacements[..1][..0] == [];
    assert ApplyInOrder(jokeText, replacements[..1]) == r1;
    assert replacements[..2][..1] == replacements[..1];
    assert ApplyInOrder(jokeText, replacements[..2]) == r2;
    assert replacements[..3][..2] == replacements[..2];
    assert replacements[..3] == replacements;
  }

  // ---------------------------------------------------------------------------
  // Properties of the substitution
  // ---------------------------------------------------------------------------

  /** The empty text comes back unchanged for every mascot. */
  lemma TransformEmpty(mascot: string)
    ensures Transform("", mascot) == ""
  {
  }

  /** Text holding none of the three spellings comes back unchanged. */
  lemma TransformPatternFree(s: string, mascot: string)
    requires !Contains(s, TitleName) && !Contains(s, LowerName) && !Contains(s, UpperName)
    ensures Transform(s, mascot) == s
  {
    if s != [] {
      ReplaceAbsent(s, TitleName, mascot);
      ReplaceAbsent(s, LowerName, Lower(mascot));
      ReplaceAbsent(s, UpperName, Upper(mascot));
    }
  }

  /**
   * One "Chuck Norris" becomes the mascot verbatim and the text around it is
   * kept, provided the text after the first pass holds neither of the other
   * two spellings (they would be rewritten by the later passes).
   */
  lemma TransformSingleName(a: string, b: string, mascot: string)
    requires forall i :: OccursAt(a + TitleName + b, TitleName, i) ==> i == |a|
    requires !Contains(a + mascot + b, LowerName) && !Contains(a + mascot + b, UpperName)
    ensures Transform(a + TitleName + b, mascot) == a + mascot + b
  {
    assert |a + TitleName + b| > 0;
    ReplaceOnly(a, b, TitleName, mascot);
    ReplaceAbsent(a + mascot + b, LowerName, Lower(mascot));
    ReplaceAbsent(a + mascot + b, UpperName, Upper(mascot));
  }

  /**
   * One "chuck norris" becomes the lower-cased mascot and the text around it
   * is kept, provided the text holds no "Chuck Norris" and the result of the
   * second pass no "CHUCK NORRIS".
   */
  lemma TransformSingleLower(a: string, b: string, mascot: string)
    requires !Contains(a + LowerName + b, TitleName)
    requires forall i :: OccursAt(a + LowerName + b, LowerName, i) ==> i == |a|
    requires !Contains(a + Lower(mascot) + b, UpperName)
    ensures Transform(a + LowerName + b, mascot) == a + Lower(mascot) + b
  {
    assert |a + LowerName + b| > 0;
    ReplaceAbsent(a + LowerName + b, TitleName, mascot);
    ReplaceOnly(a, b, LowerName, Lower(mascot));
    ReplaceAbsent(a + Lower(mascot) + b, UpperName, Upper(mascot));
  }

  /**
   * One "CHUCK NORRIS" becomes the upper-cased mascot and the text around it
   * is kept, provided the text holds neither of the other two spellings.
   */
  lemma TransformSingleUpper(a: string, b: string, mascot: string)
    requires !Contains(a + UpperName + b, TitleName) && !Contains(a + UpperName + b, LowerName)
    requires forall i :: OccursAt(a + UpperName + b, UpperName, i) ==> i == |a|
    ensures Transform(a + UpperName + b, mascot) == a + Upper(mascot) + b
  {
    assert |a + UpperName + b| > 0;
    ReplaceAbsent(a + UpperName + b, TitleName, mascot);
    ReplaceAbsent(a + UpperName + b, LowerName, Lower(mascot));
    ReplaceOnly(a, b, UpperName, Upper(mascot));
  }

  /** With "Chuck Norris" itself as the mascot, every text comes back unchanged. */
  lemma TransformWithOwnNameIsIdentity(s: string)
    ensures Transform(s, TitleName) == s
  {
    NameCasings();
    ReplaceWithItself(s, TitleName);
    ReplaceWithItself(s, LowerName);
    ReplaceWithItself(s, UpperName);
  }

  /** The three spellings are the title-case name and its lower- and upper-case forms. */
  lemma NameCasings()
    ensures Lower(TitleName) == LowerName && Upper(TitleName) == UpperName
  {
  }

  /** A mixed casing other than the three literal spellings is left alone. */
  lemma MixedCasingUnchanged(mascot: string)
    ensures Transform("Chuck norris", mascot) == "Chuck norris"
  {
    var s := "Chuck norris";
    NoMatchAtOffset(s, TitleName, 6, 0, |s|);
    NoMatchAtOffset(s, LowerName, 0, 0, |s|);
    NoMatchAtOffset(s, UpperName, 1, 0, |s|);
    TransformPatternFree(s, mascot);
  }

  /**
   * The passes do not commute: when the text before "Chuck Norris" and the
   * mascot together spell "chuck norris", the second pass rewrites what the
   * first produced, and the result is the lower-cased mascot alone.
   */
  lemma LaterPassRewritesFirstPass(a: string, mascot: string)
    requires a + mascot == LowerName
    ensures Transform(a + TitleName, mascot) == Lower(mascot)
  {
    forall i | 0 <= i < |a| ensures a[i] != 'C' {
      assert a[i] == (a + mascot)[i];
    }
    LeadingNameFirstPass(a, mascot);
    ReplaceWhole(LowerName, Lower(mascot));
    LowerHasNoCapitals(mascot, 'C');
    ReplaceAvoiding(Lower(mascot), UpperName, Upper(mascot));
  }

  /** The first pass of LaterPassRewritesFirstPass. */
  lemma LeadingNameFirstPass(a: string, mascot: string)
    requires Avoids(a, 'C')
    ensures ReplaceAll(a + TitleName, TitleName, mascot) == a + mascot
  {
    SkipPiece(a, TitleName, TitleName, mascot);
    ReplaceWhole(TitleName, mascot);
  }

  /** An instance: "chuck Chuck Norris" with the mascot "norris" becomes "norris". */
  lemma LaterPassRewritesFirstPassExample()
    ensures Transform("chuck " + TitleName, "norris") == "norris"
  {
    assert "chuck " + "norris" == LowerName;
    LaterPassRewritesFirstPass("chuck ", "norris");
  }

  /**
   * The single-name case checked character by character: "Chuck Norris"
   * followed by text `b`, with a mascot such that the first pass's result has
   * no capital C and lacks the `k`-th character of the lower-case spelling.
   */
  lemma TransformLeadingName(b: string, mascot: string, k: nat)
    requires k < |LowerName|
    requires forall j :: 0 <= j < |mascot + b| ==> (mascot + b)[j] != 'C' && (mascot + b)[j] != LowerName[k]
    ensures Transform(TitleName + b, mascot) == mascot + b
  {
    LeadingNameConditions(b, mascot, k);
    TransformSingleName("", b, mascot);
  }

  /**
   * The letter conditions of TransformLeadingName give the conditions of
   * TransformSingleName for the text "Chuck Norris" + `b`.
   */
  lemma LeadingNameConditions(b: string, mascot: string, k: nat)
    requires k < |LowerName|
    requires forall j :: 0 <= j < |mascot + b| ==> (mascot + b)[j] != 'C' && (mascot + b)[j] != LowerName[k]
    ensures forall i :: OccursAt(TitleName + b, TitleName, i) ==> i == 0
    ensures !Contains(mascot + b, LowerName) && !Contains(mascot + b, UpperName)
    ensures "" + TitleName + b == TitleName + b && "" + mascot + b == mascot + b
  {
    var s := TitleName + b;
    assert "" + TitleName + b == s;
    forall j | 0 <= j < |b| ensures b[j] != 'C' {
      assert b[j] == (mascot + b)[|mascot| + j];
    }
    NoMatchAtOffset(s, TitleName, 0, 1, |s|);
    var t := mascot + b;
    assert "" + mascot + b == t;
    NoMatchAtOffset(t, LowerName, k, 0, |t|);
    NoMatchAtOffset(t, UpperName, 0, 0, |t|);
  }

  /**
   * `transform_to_meow_norris("Chuck Norris can divide by zero.")` is
   * "Meow Norris can divide by zero.".
   */
  lemma TransformDefaultMascotExample()
    ensures Transform(TitleName + " can divide by zero.", DefaultMascot) == DefaultMascot + " can divide by zero."
  {
    TransformLeadingName(" can divide by zero.", DefaultMascot, 1);
  }

  /**
   * `transform_to_meow_norris("Chuck Norris doesn't sleep. He waits.", "Woof Norris")`
   * is "Woof Norris doesn't sleep. He waits.".
   */
  lemma TransformCustomMascotExample()
    ensures Transform(TitleName + " doesn't sleep. He waits.", WoofMascot) == WoofMascot + " doesn't sleep. He waits."
  {
    TransformLeadingName(" doesn't sleep. He waits.", WoofMascot, 0);
  }

  /**
   * Each spelling becomes the mascot in its own casing: lower case, upper case
   * and title case in one text, around and between pieces that hold neither
   * form of the letter C, provided the later passes find no spelling in the
   * mascot and the text after it.
   */
  lemma TransformEachSpelling(w0: string, w1: string, w2: string, tail: string, mascot: string)
    requires Avoids(w0, 'C') && Avoids(w0, 'c') && Avoids(w1, 'C') && Avoids(w1, 'c')
    requires Avoids(w2, 'C') && Avoids(w2, 'c') && Avoids(tail, 'C')
    requires !Contains(mascot + tail, LowerName) && !Contains(mascot + tail, UpperName)
    ensures Transform(w0 + LowerName + w1 + UpperName + w2 + TitleName + tail, mascot)
         == w0 + Lower(mascot) + w1 + Upper(mascot) + w2 + mascot + tail
  {
    assert |w0 + LowerName + w1 + UpperName + w2 + TitleName + tail| > 0;
    SpellingsFirstPass(w0, w1, w2, tail, mascot);
    SpellingsSecondPass(w0, w1, w2, tail, mascot, Lower(mascot));
    LowerHasNoCapitals(mascot, 'C');
    SpellingsThirdPass(w0, w1, w2, tail, mascot, Lower(mascot), Upper(mascot));
  }

  /** First pass of TransformEachSpelling: only the title-case spelling matches. */
  lemma SpellingsFirstPass(w0: string, w1: string, w2: string, tail: string, m: string)
    requires Avoids(w0, 'C') && Avoids(w1, 'C') && Avoids(w2, 'C') && Avoids(tail, 'C')
    ensures ReplaceAll(w0 + LowerName + w1 + UpperName + w2 + TitleName + tail, TitleName, m)
         == w0 + LowerName + w1 + UpperName + w2 + m + tail
  {
    Regroup(w0, LowerName, w1, UpperName, w2, TitleName, tail);
    Regroup(w0, LowerName, w1, UpperName, w2, m, tail);
    UpperNameIsNotTitleName();
    SkipPiece(w0, LowerName + (w1 + (UpperName + (w2 + (TitleName + tail)))), TitleName, m);
    SkipPiece(LowerName, w1 + (UpperName + (w2 + (TitleName + tail))), TitleName, m);
    SkipPiece(w1, UpperName + (w2 + (TitleName + tail)), TitleName, m);
    SkipMismatchPiece(UpperName, w2 + (TitleName + tail), TitleName, m);
    SkipPiece(w2, TitleName + tail, TitleName, m);
    ReplaceFront(TitleName, tail, m);
    ReplaceAvoiding(tail, TitleName, m);
  }

  /** Each capital C of the upper-case spelling is followed by a capital letter. */
  lemma UpperNameIsNotTitleName()
    ensures forall i :: 0 <= i < |UpperName| && UpperName[i] == TitleName[0] ==>
              i + 1 < |UpperName| && UpperName[i + 1] != TitleName[1]
  {
  }

  /** Second pass of TransformEachSpelling: only the lower-case spelling matches. */
  lemma SpellingsSecondPass(w0: string, w1: string, w2: string, tail: string, m: string, lm: string)
    requires Avoids(w0, 'c') && Avoids(w1, 'c') && Avoids(w2, 'c') && !Contains(m + tail, LowerName)
    ensures ReplaceAll(w0 + LowerName + w1 + UpperName + w2 + m + tail, LowerName, lm)
         == w0 + lm + w1 + UpperName + w2 + m + tail
  {
    Regroup(w0, LowerName, w1, UpperName, w2, m, tail);
    Regroup(w0, lm, w1, UpperName, w2, m, tail);
    SkipPiece(w0, LowerName + (w1 + (UpperName + (w2 + (m + tail)))), LowerName, lm);
    ReplaceFront(LowerName, w1 + (UpperName + (w2 + (m + tail))), lm);
    SkipPiece(w1, UpperName + (w2 + (m + tail)), LowerName, lm);
    SkipPiece(UpperName, w2 + (m + tail), LowerName, lm);
    SkipPiece(w2, m + tail, LowerName, lm);
    ReplaceAbsent(m + tail, LowerName, lm);
  }

  /** Third pass of TransformEachSpelling: only the upper-case spelling matches. */
  lemma SpellingsThirdPass(w0: string, w1: string, w2: string, tail: string, m: string, lm: string, um: string)
    requires Avoids(w0, 'C') && Avoids(lm, 'C') && Avoids(w1, 'C') && Avoids(w2, 'C')
    requires !Contains(m + tail, UpperName)
    ensures ReplaceAll(w0 + lm + w1 + UpperName + w2 + m + tail, UpperName, um)
         == w0 + lm + w1 + um + w2 + m + tail
  {
    Regroup(w0, lm, w1, UpperName, w2, m, tail);
    Regroup(w0, lm, w1, um, w2, m, tail);
    SkipPiece(w0, lm + (w1 + (UpperName + (w2 + (m + tail)))), UpperName, um);
    SkipPiece(lm, w1 + (UpperName + (w2 + (m + tail))), UpperName, um);
    SkipPiece(w1, UpperName + (w2 + (m + tail)), UpperName, um);
    ReplaceFront(UpperName, w2 + (m + tail), um);
    SkipPiece(w2, m + tail, UpperName, um);
    ReplaceAbsent(m + tail, UpperName, um);
  }

  /** Regrouping a concatenation of seven pieces to the right (a proof step). */
  lemma Regroup(x0: string, x1: string, x2: string, x3: string, x4: string, x5: string, x6: string)
    ensures x0 + x1 + x2 + x3 + x4 + x5 + x6 == x0 + (x1 + (x2 + (x3 + (x4 + (x5 + x6)))))
  {
  }

  /**
   * `transform_to_meow_norris("chuck norris and CHUCK NORRIS and Chuck Norris
   * are all the same person.")` is "meow norris and MEOW NORRIS and Meow Norris
   * are all the same person.".
   */
  lemma TransformAllSpellingsExample()
    ensures Transform(LowerName + " and " + UpperName + " and " + TitleName + " are all the same person.", DefaultMascot)
         == "meow norris" + " and " + "MEOW NORRIS" + " and " + "Meow Norris" + " are all the same person."
  {
    var tail := " are all the same person.";
    MascotAndTailFree(DefaultMascot, tail, 0, 0);
    TransformEachSpelling("", " and ", " and ", tail, DefaultMascot);
    DefaultMascotCasings();
    EmptyPrefix(LowerName);
    EmptyPrefix(Lower(DefaultMascot));
  }

  /** The same text with the mascot "Chirp Norris". */
  lemma TransformAllSpellingsChirpExample()
    ensures Transform(LowerName + " and " + UpperName + " and " + TitleName + " are all the same person.", "Chirp Norris")
         == "chirp norris" + " and " + "CHIRP NORRIS" + " and " + "Chirp Norris" + " are all the same person."
  {
    var tail := " are all the same person.";
    MascotAndTailFree("Chirp Norris", tail, 0, 1);
    TransformEachSpelling("", " and ", " and ", tail, "Chirp Norris");
    ChirpCasings();
    EmptyPrefix(LowerName);
    EmptyPrefix(Lower("Chirp Norris"));
  }

  /** The empty prefix can be dropped (a proof step). */
  lemma EmptyPrefix(s: string)
    ensures "" + s == s
  {
  }

  /**
   * A mascot and tail that both lack the `k`-th letter of the lower-case
   * spelling and the `l`-th letter of the upper-case one hold neither.
   */
  lemma MascotAndTailFree(m: string, tail: string, k: nat, l: nat)
    requires k < |LowerName| && l < |UpperName|
    requires Avoids(m, LowerName[k]) && Avoids(tail, LowerName[k])
    requires Avoids(m, UpperName[l]) && Avoids(tail, UpperName[l])
    ensures !Contains(m + tail, LowerName) && !Contains(m + tail, UpperName)
  {
    AvoidsAppend(m, tail, LowerName[k]);
    AvoidsAppend(m, tail, UpperName[l]);
    AvoidsNotContains(m + tail, LowerName, k);
    AvoidsNotContains(m + tail, UpperName, l);
  }

  /** The lower- and upper-case forms of "Chirp Norris". */
  lemma ChirpCasings()
    ensures Lower("Chirp Norris") == "chirp norris" && Upper("Chirp Norris") == "CHIRP NORRIS"
  {
  }

  /** The lower- and upper-case forms of the default mascot. */
  lemma DefaultMascotCasings()
    ensures Lower(DefaultMascot) == "meow norris" && Upper(DefaultMascot) == "MEOW NORRIS"
  {
  }

  /**
   * `transform_to_meow_norris("This is a regular joke without the main
   * character.")` returns the text unchanged.
   */
  lemma TransformNoNameExample()
    ensures Transform("This is a regular joke without the main " + "character.", DefaultMascot)
         == "This is a regular joke without the main " + "character."
  {
    var x, y := "This is a regular joke without the main ", "character.";
    NoNameFacts(x, y);
    TransformFreeOfC(x, y, DefaultMascot);
  }

  /**
   * The letter facts behind TransformNoNameExample. The parameters are pinned
   * to literals so that the solver meets the long strings once; this is a proof
   * step, not a statement about the substitution.
   */
  lemma NoNameFacts(x: string, y: string)
    requires x == "This is a regular joke without the main " && y == "character."
    ensures Avoids(x, 'C') && Avoids(x, 'c') && Avoids(y, 'C') && |y| < |LowerName|
  {
  }

  /**
   * Text in which the capital C does not occur, and the small c only in a
   * tail too short for the lower-case spelling, comes back unchanged.
   */
  lemma TransformFreeOfC(x: string, y: string, mascot: string)
    requires Avoids(x, 'C') && Avoids(x, 'c') && Avoids(y, 'C') && |y| < |LowerName|
    ensures Transform(x + y, mascot) == x + y
  {
    SkipPiece(x, y, TitleName, mascot);
    ReplaceAvoiding(y, TitleName, mascot);
    SkipPiece(x, y, LowerName, Lower(mascot));
    ReplaceShort(y, LowerName, Lower(mascot));
    SkipPiece(x, y, UpperName, Upper(mascot));
    ReplaceAvoiding(y, UpperName, Upper(mascot));
  }
}
