/**
 * The response shaping of the HTTP routes: each joke route fetches a joke
 * object, substitutes the mascot into its text and copies the other fields
 * through; the categories route counts the list; the health route classifies
 * the upstream reply. A raised `HTTPException` is the `Err` of a `Result`.
 */
module Routes {
  import opened Text
  import opened JokeService

  /** The body of `/jokes/random` and `/jokes/woof/random`. */
  datatype RandomJoke = RandomJoke(
    id: Option<string>,
    joke: Option<string>,
    mascot: string,
    categories: Option<seq<string>>,
    createdAt: Option<string>,
    updatedAt: Option<string>)

  /** The body of `/jokes/category/{category}` and `/jokes/woof/category/{category}`. */
  datatype CategoryJoke = CategoryJoke(
    id: Option<string>,
    joke: Option<string>,
    category: string,
    mascot: string,
    createdAt: Option<string>,
    updatedAt: Option<string>)

  /** The body of `/jokes/categories`. */
  datatype CategoryList = CategoryList(categories: seq<string>, total: int)

  /** The body of `/health`. */
  datatype Health = Health(status: string, externalApi: string)

  // ---------------------------------------------------------------------------
  // Joke routes
  // ---------------------------------------------------------------------------

  /** The `mascot` query parameter, "Meow Norris" when it is not given. */
  function MascotParam(query: Option<string>): (m: string)
    ensures query.None? ==> m == DefaultMascot
    ensures query.Some? ==> m == query.value
  {
    if query.Some? then query.value else DefaultMascot
  }

  /**
   * `transform_to_meow_norris(joke_data.get("value", ""), mascot)`: an absent
   * `value` is the empty text, which comes back empty; a `null` value is
   * returned by the empty-text guard as it is, so the joke is `null`.
   */
  function TransformedJoke(value: Field<string>, mascot: string): (r: Option<string>)
    ensures r.None? <==> value.Null?
    ensures value.Missing? ==> r == Some("")
    ensures value.Present? ==> r == Some(Transform(value.value, mascot))
  {
    match GetOr(value, "")
    case None => None
    case Some(text) => Some(Transform(text, mascot))
  }

  /** The dictionary built by the random-joke routes from a fetched joke. */
  function RandomJokeFrom(data: JokePayload, mascot: string): RandomJoke {
    RandomJoke(
      Get(data.id),
      TransformedJoke(data.value, mascot),
      mascot,
      GetOr(data.categories, []),
      Get(data.createdAt),
      Get(data.updatedAt))
  }

  /** The dictionary built by the category routes from a fetched joke. */
  function CategoryJokeFrom(data: JokePayload, category: string, mascot: string): CategoryJoke {
    CategoryJoke(
      Get(data.id),
      TransformedJoke(data.value, mascot),
      category,
      mascot,
      Get(data.createdAt),
      Get(data.updatedAt))
  }

  /**
   * `get_random_meow_joke`: on a failed fetch the 503 propagates and no body
   * is built; otherwise the joke carries the substituted text, echoes the
   * mascot, defaults the categories to the empty list, and passes `id`,
   * `created_at` and `updated_at` through.
   */
  function GetRandomMeowJoke(reply: Reply<JokePayload>, mascot: Option<string>): (r: Result<RandomJoke>)
    ensures r.Err? <==> !Succeeded(reply)
    ensures r.Err? ==> r.error == HttpException(503, "Unable to fetch joke from external service")
    ensures r.Ok? ==>
      var data := reply.body;
      && r.value.mascot == MascotParam(mascot)
      && r.value.joke == TransformedJoke(data.value, MascotParam(mascot))
      && r.value.id == Get(data.id)
      && r.value.categories == GetOr(data.categories, [])
      && r.value.createdAt == Get(data.createdAt)
      && r.value.updatedAt == Get(data.updatedAt)
  {
    match FetchRandomJoke(reply)
    case Err(e) => Err(e)
    case Ok(data) => Ok(RandomJokeFrom(data, MascotParam(mascot)))
  }

  /**
   * `get_joke_by_category`: as the random route, with the category echoed
   * from the path, no categories field, and a failure detail naming the
   * category.
   */
  function GetJokeByCategory(reply: Reply<JokePayload>, category: string, mascot: Option<string>): (r: Result<CategoryJoke>)
    ensures r.Err? <==> !Succeeded(reply)
    ensures r.Err? ==> r.error == HttpException(503, "Unable to fetch joke from category '" + category + "'")
    ensures r.Ok? ==>
      var data := reply.body;
      && r.value.category == category
      && r.value.mascot == MascotParam(mascot)
      && r.value.joke == TransformedJoke(data.value, MascotParam(mascot))
      && r.value.id == Get(data.id)
      && r.value.createdAt == Get(data.createdAt)
      && r.value.updatedAt == Get(data.updatedAt)
  {
    match FetchJokeByCategory(reply, category)
    case Err(e) => Err(e)
    case Ok(data) => Ok(CategoryJokeFrom(data, category, MascotParam(mascot)))
  }

  /** `get_random_woof_joke`: the random route with the mascot fixed to "Woof Norris". */
  function GetRandomWoofJoke(reply: Reply<JokePayload>): (r: Result<RandomJoke>)
    ensures r.Err? <==> !Succeeded(reply)
    ensures r.Ok? ==> r.value.mascot == "Woof Norris"
  {
    match FetchRandomJoke(reply)
    case Err(e) => Err(e)
    case Ok(data) => Ok(RandomJokeFrom(data, WoofMascot))
  }

  /** `get_woof_joke_by_category`: the category route with the mascot fixed to "Woof Norris". */
  function GetWoofJokeByCategory(reply: Reply<JokePayload>, category: string): (r: Result<CategoryJoke>)
    ensures r.Err? <==> !Succeeded(reply)
    ensures r.Ok? ==> r.value.mascot == "Woof Norris" && r.value.category == category
  {
    match FetchJokeByCategory(reply, category)
    case Err(e) => Err(e)
    case Ok(data) => Ok(CategoryJokeFrom(data, category, WoofMascot))
  }

  /** The woof routes behave exactly as the meow routes asked for "Woof Norris". */
  lemma WoofRoutesAreMeowRoutes(reply: Reply<JokePayload>, category: string)
    ensures GetRandomWoofJoke(reply) == GetRandomMeowJoke(reply, Some(WoofMascot))
    ensures GetWoofJokeByCategory(reply, category) == GetJokeByCategory(reply, category, Some(WoofMascot))
  {
  }

  /** Not giving a mascot is the same as asking for "Meow Norris". */
  lemma DefaultMascotIsMeowNorris(reply: Reply<JokePayload>, category: string)
    ensures GetRandomMeowJoke(reply, None) == GetRandomMeowJoke(reply, Some("Meow Norris"))
    ensures GetJokeByCategory(reply, category, None) == GetJokeByCategory(reply, category, Some("Meow Norris"))
  {
  }

  /** A failed joke fetch always yields a 503 whose detail says "Unable to fetch joke". */
  lemma JokeRouteFailuresAre503(reply: Reply<JokePayload>, category: string, mascot: Option<string>)
    requires !Succeeded(reply)
    ensures GetRandomMeowJoke(reply, mascot).Err? && GetRandomMeowJoke(reply, mascot).error.statusCode == 503
    ensures StartsWith(GetRandomMeowJoke(reply, mascot).error.detail, "Unable to fetch joke")
    ensures GetJokeByCategory(reply, category, mascot).Err? && GetJokeByCategory(reply, category, mascot).error.statusCode == 503
    ensures StartsWith(GetJokeByCategory(reply, category, mascot).error.detail, "Unable to fetch joke")
    ensures GetRandomWoofJoke(reply).Err? && GetRandomWoofJoke(reply).error.statusCode == 503
    ensures StartsWith(GetRandomWoofJoke(reply).error.detail, "Unable to fetch joke")
    ensures GetWoofJokeByCategory(reply, category).Err? && GetWoofJokeByCategory(reply, category).error.statusCode == 503
    ensures StartsWith(GetWoofJokeByCategory(reply, category).error.detail, "Unable to fetch joke")
  {
    assert RandomJokeDetail[..20] == "Unable to fetch joke";
    assert CategoryJokeDetail(category)[..20] == "Unable to fetch joke";
  }

  /**
   * A joke whose text is "Chuck Norris" followed by text `b` comes back as the
   * mascot followed by `b`, with every other field copied through, when that is
   * the only "Chuck Norris" and the later passes find nothing in `mascot + b`
   * (the conditions of TransformSingleName).
   */
  lemma RandomJokeReplacesLeadingName(data: JokePayload, b: string, mascot: string)
    requires data.value == Present(TitleName + b)
    requires forall i :: OccursAt(TitleName + b, TitleName, i) ==> i == 0
    requires !Contains(mascot + b, LowerName) && !Contains(mascot + b, UpperName)
    ensures GetRandomMeowJoke(Response(200, data), Some(mascot))
         == Ok(RandomJoke(Get(data.id), Some(mascot + b), mascot, GetOr(data.categories, []),
                          Get(data.createdAt), Get(data.updatedAt)))
  {
    assert "" + TitleName + b == TitleName + b;
    assert "" + mascot + b == mascot + b;
    TransformSingleName("", b, mascot);
  }

  /** The joke object `{id: "x", value: "Chuck Norris can divide by zero.", categories: ["dev"], ...}`. */
  function DivideByZeroPayload(): JokePayload {
    JokePayload(Present("x"), Present(TitleName + " can divide by zero."), Present(["dev"]), Present("t1"), Present("t1"))
  }

  /**
   * `/jokes/random` without a mascot on the joke above returns
   * `{id: "x", joke: "Meow Norris can divide by zero.", mascot: "Meow Norris", categories: ["dev"], ...}`.
   */
  lemma RandomJokeDefaultExample()
    ensures GetRandomMeowJoke(Response(200, DivideByZeroPayload()), None)
         == Ok(RandomJoke(Some("x"), Some(DefaultMascot + " can divide by zero."), DefaultMascot,
                          Some(["dev"]), Some("t1"), Some("t1")))
  {
    TransformDefaultMascotExample();
  }

  /** `/jokes/random?mascot=Woof Norris` on the same joke returns "Woof Norris can divide by zero.". */
  lemma RandomJokeWoofExample()
    ensures GetRandomMeowJoke(Response(200, DivideByZeroPayload()), Some(WoofMascot))
         == Ok(RandomJoke(Some("x"), Some(WoofMascot + " can divide by zero."), WoofMascot,
                          Some(["dev"]), Some("t1"), Some("t1")))
  {
    LeadingNameConditions(" can divide by zero.", WoofMascot, 1);
    RandomJokeReplacesLeadingName(DivideByZeroPayload(), " can divide by zero.", WoofMascot);
  }

  /** The category route's counterpart of RandomJokeReplacesLeadingName. */
  lemma CategoryJokeReplacesLeadingName(data: JokePayload, category: string, b: string, mascot: string)
    requires data.value == Present(TitleName + b)
    requires forall i :: OccursAt(TitleName + b, TitleName, i) ==> i == 0
    requires !Contains(mascot + b, LowerName) && !Contains(mascot + b, UpperName)
    ensures GetJokeByCategory(Response(200, data), category, Some(mascot))
         == Ok(CategoryJoke(Get(data.id), Some(mascot + b), category, mascot,
                            Get(data.createdAt), Get(data.updatedAt)))
  {
    assert "" + TitleName + b == TitleName + b;
    assert "" + mascot + b == mascot + b;
    TransformSingleName("", b, mascot);
  }

  /** A joke object with the given text and fixed other fields. */
  function PayloadWith(text: string, categories: seq<string>): JokePayload {
    JokePayload(Present("test-id"), Present(text), Present(categories),
                Present("2020-01-05 13:42:19.576875"), Present("2020-01-05 13:42:19.576875"))
  }

  /** `/jokes/random` on "Chuck Norris can speak braille." gives "Meow Norris can speak braille.". */
  lemma RandomJokeBrailleExample()
    ensures var r := GetRandomMeowJoke(Response(200, PayloadWith(TitleName + " can speak braille.", ["dev"])), None);
      r.Ok? && r.value.joke == Some(DefaultMascot + " can speak braille.")
      && r.value.mascot == "Meow Norris" && r.value.id == Some("test-id")
  {
    LeadingNameConditions(" can speak braille.", DefaultMascot, 1);
    RandomJokeReplacesLeadingName(PayloadWith(TitleName + " can speak braille.", ["dev"]), " can speak braille.", DefaultMascot);
  }

  /** `/jokes/random?mascot=Woof Norris` on "Chuck Norris invented the internet.". */
  lemma RandomJokeCustomMascotExample()
    ensures var r := GetRandomMeowJoke(Response(200, PayloadWith(TitleName + " invented the internet.", [])), Some("Woof Norris"));
      r.Ok? && r.value.joke == Some(WoofMascot + " invented the internet.") && r.value.mascot == "Woof Norris"
  {
    LeadingNameConditions(" invented the internet.", WoofMascot, 0);
    RandomJokeReplacesLeadingName(PayloadWith(TitleName + " invented the internet.", []), " invented the internet.", WoofMascot);
  }

  /** `/jokes/category/celebrity` on "Chuck Norris is the reason Waldo is hiding.". */
  lemma CategoryJokeExample()
    ensures var r := GetJokeByCategory(Response(200, PayloadWith(TitleName + " is the reason Waldo is hiding.", ["celebrity"])), "celebrity", None);
      r.Ok? && r.value.joke == Some(DefaultMascot + " is the reason Waldo is hiding.") && r.value.category == "celebrity"
  {
    LeadingNameConditions(" is the reason Waldo is hiding.", DefaultMascot, 0);
    CategoryJokeReplacesLeadingName(PayloadWith(TitleName + " is the reason Waldo is hiding.", ["celebrity"]), "celebrity",
                                    " is the reason Waldo is hiding.", DefaultMascot);
  }

  /** `/jokes/woof/random` on "Chuck Norris doesn't do push-ups. He pushes the Earth down.". */
  lemma WoofJokeExample()
    ensures var r := GetRandomWoofJoke(Response(200, PayloadWith(TitleName + " doesn't do push-ups." + " He pushes the Earth down.", ["dev"])));
      r.Ok? && r.value.joke == Some(WoofMascot + " doesn't do push-ups." + " He pushes the Earth down.") && r.value.mascot == "Woof Norris"
  {
    var x, y := " doesn't do push-ups.", " He pushes the Earth down.";
    Associate(TitleName, x, y);
    Associate(WoofMascot, x, y);
    var data := PayloadWith(TitleName + (x + y), ["dev"]);
    PushUpsLetters(x, y);
    WoofRoutesAreMeowRoutes(Response(200, data), "");
    LeadingNameConditions(x + y, WoofMascot, 0);
    RandomJokeReplacesLeadingName(data, x + y, WoofMascot);
  }

  /**
   * The letter facts behind WoofJokeExample: no C in either case. The
   * parameters are pinned to literals so that the solver meets the long strings
   * once; this is a proof step, not a statement about the routes.
   */
  lemma PushUpsLetters(x: string, y: string)
    requires x == " doesn't do push-ups." && y == " He pushes the Earth down."
    ensures forall j :: 0 <= j < |x + y| ==> (x + y)[j] != 'C'
    ensures forall j :: 0 <= j < |WoofMascot + (x + y)| ==>
              (WoofMascot + (x + y))[j] != 'C' && (WoofMascot + (x + y))[j] != LowerName[0]
  {
    assert Avoids(x, 'C') && Avoids(x, 'c') && Avoids(y, 'C') && Avoids(y, 'c');
    assert Avoids(WoofMascot, 'C') && Avoids(WoofMascot, 'c');
    AvoidsAppend(x, y, 'C');
    AvoidsAppend(x, y, 'c');
    AvoidsAppend(WoofMascot, x + y, 'C');
    AvoidsAppend(WoofMascot, x + y, 'c');
  }

  // ---------------------------------------------------------------------------
  // Categories route
  // ---------------------------------------------------------------------------

  /** `get_joke_categories`: the fetched list unchanged, with its length as `total`. */
  function GetJokeCategories(reply: Reply<seq<string>>): (r: Result<CategoryList>)
    ensures r.Err? <==> !Succeeded(reply)
    ensures r.Err? ==> r.error == HttpException(503, "Unable to fetch categories")
    ensures r.Ok? ==> r.value.categories == reply.body && r.value.total == |reply.body|
  {
    match GetCategories(reply)
    case Err(e) => Err(e)
    case Ok(categories) => Ok(CategoryList(categories, |categories|))
  }

  /** `/jokes/categories` on six categories returns them with `total` 6. */
  lemma CategoriesExample()
    ensures var cs := ["animal", "career", "celebrity", "dev", "explicit", "fashion"];
      GetJokeCategories(Response(200, cs)) == Ok(CategoryList(cs, 6))
  {
  }

  // ---------------------------------------------------------------------------
  // Health route
  // ---------------------------------------------------------------------------

  const Healthy: Health := Health("healthy", "connected")
  const Degraded: Health := Health("degraded", "issues")
  const Unhealthy: Health := Health("unhealthy", "disconnected")

  /**
   * `health_check`: healthy exactly when the upstream answered 200, degraded
   * on any other status (2xx included), unhealthy when the request raised.
   * It never fails.
   */
  function HealthCheck<T>(reply: Reply<T>): (r: Health)
    ensures r == Healthy <==> reply.Response? && reply.statusCode == 200
    ensures r == Degraded <==> reply.Response? && reply.statusCode != 200
    ensures r == Unhealthy <==> reply.TransportFailure?
  {
    match reply
    case TransportFailure => Unhealthy
    case Response(code, _) => if code == 200 then Healthy else Degraded
  }

  /**
   * The health check is stricter than the joke fetches: a healthy upstream
   * lets every fetch through, but a 2xx other than 200 — which the fetches
   * accept — is reported as degraded.
   */
  lemma HealthyImpliesFetchSucceeds<T>(reply: Reply<T>)
    ensures HealthCheck(reply) == Healthy ==> Succeeded(reply)
    ensures HealthCheck(reply) == Unhealthy ==> !Succeeded(reply)
    ensures Succeeded(reply) && reply.statusCode != 200 ==> HealthCheck(reply) == Degraded
  {
  }

  /**
   * A 203 (non-authoritative) reply with a joke body: the joke route serves the
   * joke, while the health check reports "degraded".
   */
  lemma NonAuthoritativeIsDegradedButServed(data: JokePayload)
    ensures GetRandomMeowJoke(Response(203, data), None).Ok?
    ensures HealthCheck(Response(203, data)) == Health("degraded", "issues")
  {
  }
}
