# Meow Norris joke API: a verified model of its pure core

The Meow Norris Joke API is a small FastAPI proxy. It takes Chuck Norris jokes
from `api.chucknorris.io` and rewrites them for an office mascot. This project
models the logic of `main.py` that does not depend on the network, and proves
properties of it:

- **Name substitution** (`JokeService.transform_to_meow_norris`). Empty text
  comes back as it is. Otherwise three replace-all passes run in order:
  `"Chuck Norris"` becomes the mascot, `"chuck norris"` becomes the
  lower-cased mascot, and `"CHUCK NORRIS"` becomes the upper-cased mascot.
  Each pass has the semantics of Python's `str.replace`: left to right,
  non-overlapping, and inserted text is never rescanned. The loop over the
  replacement list is a `method` with a loop invariant. It is proved equal to
  the composition of the three passes, and that composition is proved against
  the properties below.
- **Upstream calls** (`fetch_random_joke`, `fetch_joke_by_category`,
  `get_categories`). The outcome of the GET is a parameter (`Reply`): a
  transport failure, or a status code with the decoded body. A 2xx response
  yields the body. A transport failure or any other status yields an
  `HTTPException` 503 with that call's fixed detail (errors that are not an
  `httpx.HTTPError` are left out; see below).
- **Response shaping** of the routes `/jokes/random`,
  `/jokes/category/{category}`, `/jokes/woof/random`,
  `/jokes/woof/category/{category}`, `/jokes/categories` and `/health`. A
  decoded JSON field is `Missing`, `Null` or `Present`, so the model keeps the
  difference between `d.get(k)` and `d.get(k, default)`.

Files:

- `text.dfy` (module `Text`): `str.replace` as `ReplaceAll`, its
  characterisation lemmas, and ASCII `lower`/`upper`.
- `joke_service.dfy` (module `JokeService`): the upstream calls, the
  substitution `transform_to_meow_norris` as the function `Transform` (the method
  `TransformToMeowNorris` is its loop), and its properties and examples.
- `routes.dfy` (module `Routes`): the route bodies, the health
  classification, and the route examples.

Three behaviours of the code are easy to misread; the model keeps them as
the code has them:

- **Health check.** The route reports "healthy" only for status 200
  (main.py:175), not for every 2xx status. A 203 reply with a joke body is
  served by the joke routes, because `raise_for_status` accepts it, but the
  health check reports it as "degraded"
  (`Routes.NonAuthoritativeIsDegradedButServed`).
- **Passes interact.** The three patterns differ in casing, but a later pass
  can still match text produced by an earlier one. `"chuck "` followed by
  `"Chuck Norris"`, with the mascot `"norris"`, becomes `"chuck norris"` after
  pass 1, and pass 2 then rewrites that
  (`JokeService.LaterPassRewritesFirstPass`).
- **A `null` joke text.** It is not replaced by `""`. The empty-text guard
  at main.py:74-75 returns it as it is, so `joke` is `null`
  (`Routes.TransformedJoke`).

## Model

| member | source | states |
|---|---|---|
| Text.ReplaceAll | main.py:86 | definition of `s.replace(pat, rep)`; characterised by `ReplaceAbsent`, `ReplaceLeftmost` and `ReplaceWithItself` |
| Text.ReplaceAbsent | main.py:86 | `ReplaceAll`, the model of `str.replace`: `s.replace(p, r)` returns `s` when `p` does not occur in `s` |
| Text.ReplaceWithItself | main.py:86 | replacing a pattern by itself leaves every text unchanged |
| Text.ReplaceSkip | main.py:86 | a prefix in which no match begins is copied verbatim, and the scan resumes right after it |
| Text.ReplaceLeftmost | main.py:86 | `ReplaceAll`, the model of `str.replace`, has left-to-right, non-overlapping semantics: the text before the leftmost match is kept, the match becomes `r` and is not rescanned, and the rest is processed after the match |
| Text.ReplaceOnly | main.py:86 | a single occurrence is replaced by `r` and the text on both sides is kept |
| Text.ReplaceFront | main.py:86 | (proof step) a match at the front becomes `r` and the scan continues after it |
| Text.ReplaceWhole | main.py:86 | (proof step) the pattern alone becomes the replacement |
| Text.SkipPiece | main.py:86 | (proof step) a piece free of the pattern's first letter passes through unchanged |
| Text.SkipMismatchPiece | main.py:86 | (proof step) a piece where each copy of the pattern's first letter is followed by a different second letter passes through unchanged |
| Text.ReplaceAvoiding | main.py:86 | (proof step) text free of the pattern's first letter is unchanged |
| Text.ReplaceShort | main.py:86 | (proof step) text shorter than the pattern is unchanged |
| Text.NoMatchAtOffset | main.py:86 | (proof step) ruling occurrences out by one character position |
| Text.Lower | main.py:80 | definition of `mascot.lower()` on ASCII letters; characterised by `LowerHasNoCapitals`, `NameCasings`, `DefaultMascotCasings` and `ChirpCasings` |
| Text.Upper | main.py:81 | definition of `mascot.upper()` on ASCII letters; characterised by `UpperHasNoSmallLetters`, `NameCasings`, `DefaultMascotCasings` and `ChirpCasings` |
| Text.LowerHasNoCapitals | main.py:80 | `mascot.lower()` contains no capital letter |
| Text.UpperHasNoSmallLetters | main.py:81 | `mascot.upper()` contains no small letter |
| Text.AvoidsNotContains | main.py:86 | (proof step) text lacking one of the pattern's characters does not contain the pattern |
| JokeService.Get | main.py:128 | `d.get(k)` is `None` exactly when the key is absent or `null`, and otherwise the value |
| JokeService.GetOr | main.py:131 | `d.get(k, default)` gives the default only for an absent key; a `null` stays `None` |
| JokeService.IsSuccess | main.py:46 | definition of the status codes `raise_for_status` lets through (exactly 200-299); characterised by `Fetch` and `HealthyImpliesFetchSucceeds` |
| JokeService.Succeeded | main.py:45-46 | definition of a reply that passes both the GET and `raise_for_status`; characterised by `Fetch`, `JokeRouteFailuresAre503` and `HealthyImpliesFetchSucceeds` |
| JokeService.Fetch | main.py:44-50 | the body is returned exactly on a 2xx response; every transport failure or other status becomes a 503 with the given detail |
| JokeService.FetchRandomJoke | main.py:42-50 | 2xx gives the payload; otherwise 503 "Unable to fetch joke from external service" |
| JokeService.FetchJokeByCategory | main.py:52-60 | 2xx gives the payload; otherwise 503 "Unable to fetch joke from category '<category>'" |
| JokeService.GetCategories | main.py:62-70 | 2xx gives the list; otherwise 503 "Unable to fetch categories" |
| JokeService.FailureDetailsSayUnableToFetch | main.py:48-70 | every failure detail starts with "Unable to fetch", whatever the category |
| JokeService.Replacements | main.py:78-82 | definition of the three (pattern, replacement) pairs in their order; characterised by `TransformToMeowNorris` and `NameCasings` |
| JokeService.Transform | main.py:72-88 | definition of `transform_to_meow_norris`; characterised by `TransformToMeowNorris`, `TransformEmpty`, `TransformPatternFree`, `TransformSingleName`, `TransformSingleLower`, `TransformSingleUpper` and `LaterPassRewritesFirstPass` |
| JokeService.TransformToMeowNorris | main.py:72-88 | the loop over the three (pattern, replacement) pairs returns exactly the three passes applied in order, and empty text as it is |
| JokeService.TransformEmpty | main.py:74-75 | the empty text comes back empty for every mascot |
| JokeService.TransformPatternFree | main.py:78-88 | text holding none of the three spellings comes back unchanged |
| JokeService.TransformSingleName | main.py:78-88 | one "Chuck Norris" becomes the mascot verbatim and the surrounding text is kept, when the later passes find nothing |
| JokeService.TransformSingleLower | main.py:78-88 | one "chuck norris" becomes the lower-cased mascot and the surrounding text is kept, when no "Chuck Norris" occurs and the third pass finds nothing |
| JokeService.TransformSingleUpper | main.py:78-88 | one "CHUCK NORRIS" becomes the upper-cased mascot and the surrounding text is kept, when neither other spelling occurs |
| JokeService.TransformLeadingName | main.py:78-88 | the same for text that starts with "Chuck Norris", under letter conditions that can be checked character by character: `mascot + b` has neither a capital C nor some one letter of "chuck norris" |
| JokeService.LeadingNameConditions | main.py:78-88 | (proof step) those letter conditions give the conditions of `TransformSingleName` for `"Chuck Norris" + b` |
| JokeService.TransformWithOwnNameIsIdentity | main.py:78-88 | with the mascot "Chuck Norris", every text comes back unchanged |
| JokeService.NameCasings | main.py:79-81 | the lower- and upper-case forms of "Chuck Norris" are the other two patterns |
| JokeService.MixedCasingUnchanged | main.py:78-86 | a casing other than the three spellings ("Chuck norris") is not altered |
| JokeService.LaterPassRewritesFirstPass | main.py:84-86 | the passes do not commute: if the text before "Chuck Norris" plus the mascot spell "chuck norris", the result is the lower-cased mascot |
| JokeService.LaterPassRewritesFirstPassExample | main.py:84-86 | "chuck Chuck Norris" with mascot "norris" becomes "norris" |
| JokeService.TransformEachSpelling | main.py:78-86 | a lower-case, an upper-case and a title-case spelling, in that order, each become the mascot in the matching casing, with the surrounding pieces kept, for any mascot in which (together with the text after it) the later passes find nothing; the pieces before the title-case spelling hold no letter C of either case, the text after it no capital C |
| JokeService.SpellingsFirstPass | main.py:84-86 | (proof step) the first pass of that text replaces only the title-case spelling |
| JokeService.SpellingsSecondPass | main.py:84-86 | (proof step) the second pass replaces only the lower-case spelling |
| JokeService.SpellingsThirdPass | main.py:84-86 | (proof step) the third pass replaces only the upper-case spelling |
| JokeService.MascotAndTailFree | main.py:78-86 | (proof step) a mascot and tail lacking one letter of each of the later two spellings hold neither spelling |
| JokeService.TransformDefaultMascotExample | test_main.py:12-16 | "Chuck Norris can divide by zero." becomes "Meow Norris can divide by zero." |
| JokeService.TransformCustomMascotExample | test_main.py:24-28 | with "Woof Norris", "Chuck Norris doesn't sleep. He waits." becomes "Woof Norris doesn't sleep. He waits." |
| JokeService.TransformAllSpellingsExample | test_main.py:18-22 | "chuck norris and CHUCK NORRIS and Chuck Norris are all the same person." becomes "meow norris and MEOW NORRIS and Meow Norris are all the same person." |
| JokeService.TransformAllSpellingsChirpExample | main.py:78-86 | with the mascot "Chirp Norris" (one of the `Mascot` values), the same text becomes "chirp norris and CHIRP NORRIS and Chirp Norris are all the same person." |
| JokeService.ChirpCasings | main.py:80-81 | "Chirp Norris" lower-cases to "chirp norris" and upper-cases to "CHIRP NORRIS" |
| JokeService.DefaultMascotCasings | main.py:80-81 | "Meow Norris" lower-cases to "meow norris" and upper-cases to "MEOW NORRIS" |
| JokeService.TransformFreeOfC | main.py:78-88 | text without a capital C, whose small c occurs only in a tail shorter than "chuck norris", comes back unchanged |
| JokeService.TransformNoNameExample | test_main.py:35-39 | "This is a regular joke without the main character." comes back unchanged |
| Routes.MascotParam | main.py:116 | a missing `mascot` query parameter means "Meow Norris"; a given one is used as it is |
| Routes.TransformedJoke | main.py:124-125 | a missing `value` gives "", a `null` value gives `null`, and a string is transformed |
| Routes.RandomJokeFrom | main.py:127-134 | definition of the dictionary the random-joke routes return; characterised by `RandomJokeReplacesLeadingName` and the random-joke examples |
| Routes.CategoryJokeFrom | main.py:149-156 | definition of the dictionary the category routes return; characterised by `CategoryJokeReplacesLeadingName` and `CategoryJokeExample` |
| Routes.GetRandomMeowJoke | main.py:115-134 | a failed fetch gives the 503 and no body; otherwise the joke is the transformed value, the mascot is echoed, categories default to `[]`, and id and timestamps pass through |
| Routes.GetJokeByCategory | main.py:136-156 | the same for a category, with the category echoed and the failure detail naming it |
| Routes.GetRandomWoofJoke | main.py:183-200 | fails exactly when the fetch fails; otherwise the mascot is "Woof Norris" |
| Routes.GetWoofJokeByCategory | main.py:202-221 | fails exactly when the fetch fails; otherwise the mascot is "Woof Norris" and the category is echoed |
| Routes.WoofRoutesAreMeowRoutes | main.py:183-221 | the woof routes equal the meow routes asked for "Woof Norris", on every reply |
| Routes.DefaultMascotIsMeowNorris | main.py:115-137 | leaving out the mascot equals asking for "Meow Norris" |
| Routes.JokeRouteFailuresAre503 | main.py:44-60 | on any failed fetch each of the four joke routes, meow and woof, yields a 503 whose detail starts with "Unable to fetch joke" |
| Routes.RandomJokeReplacesLeadingName | main.py:122-134 | on a 200 reply, a joke `"Chuck Norris" + b` is served as `mascot + b` with every other field copied, when that is the only "Chuck Norris" and neither "chuck norris" nor "CHUCK NORRIS" occurs in `mascot + b` (the conditions of `JokeService.TransformSingleName`) |
| Routes.CategoryJokeReplacesLeadingName | main.py:144-156 | the same for the category route: on a 200 reply, `"Chuck Norris" + b` is served as `mascot + b` with the category echoed and every other field copied, under the same conditions |
| Routes.RandomJokeDefaultExample | main.py:122-134 | the joke object {id "x", "Chuck Norris can divide by zero.", ["dev"], "t1", "t1"} is served with joke "Meow Norris can divide by zero." and mascot "Meow Norris" |
| Routes.RandomJokeWoofExample | main.py:122-134 | with `mascot=Woof Norris` the same object gives "Woof Norris can divide by zero." |
| Routes.RandomJokeBrailleExample | test_main.py:52-68 | "Chuck Norris can speak braille." is served as "Meow Norris can speak braille." with the id kept |
| Routes.RandomJokeCustomMascotExample | test_main.py:70-85 | with "Woof Norris", "Chuck Norris invented the internet." is served as "Woof Norris invented the internet." |
| Routes.CategoryJokeExample | test_main.py:87-102 | in category "celebrity", "Chuck Norris is the reason Waldo is hiding." becomes "Meow Norris is the reason Waldo is hiding." |
| Routes.WoofJokeExample | test_main.py:126-141 | `/jokes/woof/random` serves "Woof Norris doesn't do push-ups. He pushes the Earth down." |
| Routes.GetJokeCategories | main.py:158-167 | a failed fetch gives 503 "Unable to fetch categories"; otherwise the list is unchanged and `total` is its length |
| Routes.CategoriesExample | test_main.py:104-114 | six categories are returned as they are with `total` 6 |
| Routes.HealthCheck | main.py:169-181 | healthy exactly on status 200, degraded exactly on any other status, unhealthy exactly when the request raised; it never fails |
| Routes.HealthyImpliesFetchSucceeds | main.py:175-178 | for one and the same reply: a reply the health check calls healthy is one every fetch accepts, one it calls unhealthy is one no fetch accepts, and a 2xx other than 200 is reported as degraded |
| Routes.NonAuthoritativeIsDegradedButServed | main.py:175-178 | a 203 reply with a joke body is served by the joke route but reported as degraded |

## Left out

- The httpx client, the GET requests, the 10-second timeout and JSON decoding are network I/O in a foreign library. Their outcome is the `Reply` parameter.
- Joke bodies are modelled as JSON objects whose `id`, `value`, `created_at` and `updated_at` are strings (or absent, or `null`) and whose `categories` is a list of strings; category bodies as lists of strings. Other shapes are not modelled. Of those, the source passes non-string `id`, `created_at`, `updated_at` and `categories` values through unchanged, returns a falsy non-string `value` (`0`, `false`, `[]`) as the joke via the guard at main.py:74-75, and serves an object or string categories body with `total` set to its `len`.
- A reply whose body does not decode (for instance a 204 with no body: `response.json()` at main.py:47 raises an error that is not an `httpx.HTTPError`), a joke body that is not an object (`.get` at main.py:124), a truthy non-string `value` (`.replace` at main.py:86), and a categories body without a length: in the source each ends in an unhandled error, which the model does not represent.
- `raise_for_status` is modelled as passing exactly the 2xx codes.
- Exceptions from the GET that are not an `httpx.HTTPError` are left out: `Reply` has no such outcome. For instance, a category holding an ASCII control character (`/jokes/category/a%0Ab`) makes httpx raise `InvalidURL` while building the URL at main.py:55; main.py:58 does not catch it, so the source ends in an unhandled error, not the 503 of main.py:60. The health check catches every `Exception` (main.py:179), so there the model's `TransportFailure` covers it.
- async/await, the `lifespan` context manager and `close`: resource lifecycle and concurrency.
- Logging: it has no observable effect on any response.
- FastAPI routing and parameter binding, and the uvicorn launch: framework wiring. The `mascot` query parameter is an `Option` that the route defaults.
- The static payloads of `/` and `/mascots`: they contain no logic.
- The `Mascot` enum: it is never used to check input.
- Text.Lower: models `str.lower` as ASCII case mapping only, without Unicode's full case mapping.
- Text.Upper: models `str.upper` as ASCII case mapping only, without Unicode's full case mapping.
- Routes.GetRandomWoofJoke: its own contract only fixes the mascot and the failure condition. The full fields come from `Routes.WoofRoutesAreMeowRoutes`.
- Routes.GetWoofJokeByCategory: its own contract only fixes the mascot, the category and the failure condition. The full fields come from `Routes.WoofRoutesAreMeowRoutes`.
