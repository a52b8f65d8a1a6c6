# URL shortener over Redis: a Dafny model

This project models the core of a small Flask URL shortener. The service layer
(`services.py`) keeps a counter in Redis at key `next_short_id`. It increments
that counter for every URL, encodes the new value over a 62-symbol alphabet and
stores the URL under the resulting short code. The request handlers
(`routes.py`) validate the submitted URL before calling the service, and map
lookups to a redirect, a 404 or a 500.

Modules:

- `Wrappers` (wrappers.dfy): `Option` (Python's `None` or a value) and `Result`
  (a value or a raised exception).
- `Codec` (codec.dfy): `base_encode` exactly as written, and a separate
  positional encoder that does what the function's doc comment describes.
- `Services` (services.dfy): `RedisState` is a snapshot of the module global `r`
  (set or None), the counter and every other key. The pure functions
  `Initialized`, `Generate` and `GetLongUrl` give the meaning of `init_redis`,
  `generate_and_store_url` and `get_long_url`. Class `RedisService` holds those
  fields and updates them in place; its methods are proved equal to the pure
  functions. `Keyspace` is the database as Redis holds it: the counter, as a
  decimal string, sits in the same namespace as the codes.
- `Routes` (routes.dfy): `Response` abstracts the handlers' answers.
  `Shorten` and `RedirectToLongUrl` are the decisions of `shorten_url` and
  `redirect_to_long_url`. `ShortenUrl` is the handler run against a
  `RedisService` object.

## Where the model follows the code rather than its documentation

- `base_encode` (services.py:29-43) has its `arr.reverse()` and `return` inside
  the `while` loop. For every positive number it therefore returns the single
  symbol `alphabet[num % 62]`. The doc comment promises a general base
  conversion, and the doc comment of `generate_and_store_url`
  (services.py:47-48) promises a unique short code, relying on the counter for
  uniqueness. The model follows the code: `Codec.BaseEncode` and the store use that behaviour.
  `Codec.AsWrittenCollides` and `Services.LaterUrlOverwrites` show what follows:
  id 63 gets the same code as id 1, and storing it replaces the first URL.
  `Codec.Encode` and `Codec.BaseEncodePositional` are the corrected positional
  encoding. They are not the source, and nothing else in the model uses them
  except the decimal rendering of the counter.
- The code raises `RuntimeError` from `get_long_url` when `r` is None. When `r`
  is None, `generate_and_store_url` fails with Python's `AttributeError` on
  `r.incr`. `shorten_url` catches only `RuntimeError`, so that error escapes the
  handler (`Routes.Uncaught`). Its `except RuntimeError` branch can never be
  reached.
- `BASE62_ALPHABET` is written in `Codec` as the concatenation of its digit,
  lower-case and upper-case runs. This is the same 62-character string as the
  literal at services.py:12.

## Model

| member | source | states |
|---|---|---|
| `Codec.BaseEncode` | services.py:29-43 | The loop runs once and returns. For `num == 0` the result is `alphabet[0]`. For `num > 0` it is the one symbol `alphabet[num % len(alphabet)]`. For negative `num` the function falls off its end and returns None |
| `Codec.AsWritten` | services.py:29-43 | The closed form of `base_encode`: None exactly for negative `num` (the loop never runs and the function falls off its end), otherwise a code of exactly one symbol |
| `Codec.AsWrittenIsOneSymbol` | services.py:34-43 | Every code for `num >= 0` has length one, is the symbol of the last base-N digit, and that symbol is in the alphabet |
| `Codec.AsWrittenPeriodic` | services.py:38-43 | `num` and `num + len(alphabet)` get the same code, for every `num >= 0` |
| `Codec.AsWrittenCollides` | services.py:29-43 | `base_encode(62) == base_encode(0) == "0"` and `base_encode(63) == base_encode(1) == "1"` |
| `Codec.AsWrittenNotInjective` | services.py:30-32 | Contrary to the doc comment, two distinct non-negative numbers share a code |
| `Codec.AsWrittenAgreesBelowBase` | services.py:36-43 | The code as written equals the positional encoding if and only if `num` is below the base |
| `Codec.Encode` | services.py:30-32 | Corrected positional encoding, most significant symbol first: never empty, every symbol from the alphabet |
| `Codec.DecodeSymbols` | services.py:36-41 | Decoding the digits the division loop produces for `n`, most significant first, gives back `n` |
| `Codec.DecodeEncode` | services.py:30-32 | For an alphabet without repeated symbols, decoding the positional code gives back the number |
| `Codec.EncodeInjective` | services.py:30-32 | Distinct numbers get distinct positional codes |
| `Codec.EncodeLength` | services.py:30-32 | A positional code of length `k` stands for a number in `[base^(k-1), base^k)`; zero needs one symbol |
| `Codec.EncodeNoLeadingZero` | services.py:30-32 | The positional code of a positive number does not start with `alphabet[0]` |
| `Codec.EncodeExamples` | services.py:30-32 | Positional codes: 0 is "0", 62 is "10", 62*62-1 is "ZZ", 62*62 is "100" |
| `Codec.Base62AlphabetIsDistinct` | services.py:12 | The alphabet has 62 symbols, none repeated |
| `Codec.BaseEncodePositional` | services.py:36-43 | The corrected loop collects every remainder and reverses once after the loop; its result is the positional encoding |
| `Services.ShortCode` | services.py:55 | The code for id `n` is `base_encode(n)` and is never the counter key |
| `Services.Generate` | services.py:45-60 | If `r` is None it raises AttributeError and changes nothing. Otherwise the counter becomes one more than before (absent counts as 0), and the code is the encoding of that new value. The keyspace is the old one with INCR and then an unconditional SET of code to URL applied. The counter key is never clobbered |
| `Services.Get` | services.py:72 | Redis GET over the whole keyspace: a value exactly when the key is present, and then the stored value. A code key reads from the mappings; the counter key reads as the counter's decimal string |
| `Services.Initialized` | services.py:14-26 | After `init_redis`, `r` is set, and the counter and every key are unchanged |
| `Services.GetLongUrl` | services.py:62-72 | RuntimeError("Redis connection not initialized.") exactly when `r` is None; otherwise the result of GET on the code |
| `Services.GetLongUrlRaisesIffUninitialized` | services.py:62-72 | `get_long_url` raises RuntimeError("Redis connection not initialized.") exactly when `r` is None. Otherwise it returns None exactly when the key is absent, and the stored value when it is present |
| `Services.InitializedIsIdempotent` | services.py:14-26 | `init_redis` does nothing when `r` is already set, running it twice is running it once, and it never changes the data |
| `Services.InitializedNeverRaises` | services.py:20-23 | `r` is assigned before the ping, so after `init_redis`, even one whose ping failed, `get_long_url` no longer raises RuntimeError and goes on to the GET |
| `Services.ShortCodeAvoidsCounter` | services.py:52-58 | Every code is one symbol of the alphabet, `_` is not in the alphabet, so no code equals `next_short_id` |
| `Services.FirstCodeIsOne` | services.py:52-55 | The first id issued over an empty counter, 1, is encoded as "1" |
| `Services.GenerateThenGet` | services.py:45-72 | Looking up the code just issued returns exactly the URL stored |
| `Services.GenerateChangesNothingElse` | services.py:52-58 | Every key other than the counter and the issued code reads as before. The counter key reads as the new counter value |
| `Services.GenerateAllAdvancesCounter` | services.py:52 | After `k` successive calls the counter has grown by exactly `k` |
| `Services.LaterUrlOverwrites` | services.py:52-58 | Sixty-two calls after a code was issued, the same code is issued again. Its SET replaces the URL stored first |
| `Services.RedisService.constructor` | services.py:10 | At import `r` is None. The data already in Redis is kept |
| `Services.RedisService.InitRedis` | services.py:14-26 | The new state is the `init_redis` transition, whatever the ping outcome |
| `Services.RedisService.GenerateAndStoreUrl` | services.py:45-60 | The in-place update and the returned outcome equal `Generate`, and the object stays consistent |
| `Routes.Shorten` | url_shortener_using_redis_flask-main/routes.py:16-53 | A request failing either check gets a 400 and leaves the state unchanged. An acceptable one changes the state exactly as the service does. The answer is a short code exactly when the URL is acceptable and `r` is set. It is never the handler's own 500 (`ServerError`); without `r` the AttributeError escapes as Flask's 500 (`Uncaught`) |
| `Routes.RedirectToLongUrl` | url_shortener_using_redis_flask-main/routes.py:56-74 | The answer is a 500, a redirect or a 404. It is a 500 exactly while `r` is None, and a redirect only to a non-empty value stored at the code |
| `Routes.ShortenRejectsMissing` | url_shortener_using_redis_flask-main/routes.py:27-30 | A missing or empty `long_url` gives 400 "Missing 'long_url' in request body" and leaves the state unchanged |
| `Routes.ShortenRejectsScheme` | url_shortener_using_redis_flask-main/routes.py:32-35 | A URL starting with neither `http://` nor `https://` gives 400 with the scheme message and leaves the state unchanged |
| `Routes.ShortenTouchesStoreOnlyWhenAcceptable` | url_shortener_using_redis_flask-main/routes.py:27-40 | The state changes only when both checks pass, and then exactly as the service changes it for that same URL |
| `Routes.ShortenAnswersWithIssuedCode` | url_shortener_using_redis_flask-main/routes.py:40-53 | The success response names exactly the code the service returned, which is the encoding of the new counter value |
| `Routes.ShortenNeverServerError` | url_shortener_using_redis_flask-main/routes.py:37-43 | `shorten_url` never answers through its `except RuntimeError` branch. Without `r` the AttributeError escapes the handler and nothing changes |
| `Routes.ShortenThenRedirect` | url_shortener_using_redis_flask-main/routes.py:15-74 | Visiting the code that `shorten_url` answered with redirects to exactly the URL submitted |
| `Routes.RedirectOutcomes` | url_shortener_using_redis_flask-main/routes.py:56-74 | 500 with the service's message exactly when `r` is None. A redirect to exactly the stored value when it is non-empty. 404 "Short URL not found" when the key is absent or holds the empty string |
| `Routes.RedirectCounterKey` | url_shortener_using_redis_flask-main/routes.py:61-71 | The counter shares the keyspace: visiting `next_short_id` redirects to the counter's decimal value |
| `Routes.ShortenUrl` | url_shortener_using_redis_flask-main/routes.py:16-53 | Runs both checks before calling the service. The new object state and the response equal `Shorten` |
| `Routes.StartShortenVisit` | url_shortener_using_redis_flask-main/routes.py:15-74 | Over an empty database, after startup with any ping outcome (every later Redis command assumed to succeed), the first shortening of any URL starting with `http://` or `https://` answers "1" and visiting it redirects to the URL |

`redirect_to_long_url` and `get_long_url` are functions of a state snapshot, so
they cannot change the counter or the mappings.

## Left out

- Flask machinery (`Blueprint`, `render_template` and the home route, `request.get_json`, `jsonify`, `redirect`, `url_for(..., _external=True)`): HTTP glue. A success response carries the short code itself, not the absolute short URL.
- Request bodies that are not JSON objects, and a `long_url` that is not a string: the input is `Option<string>`, with None for a missing key.
- Flask's path matching for `/<short_code>` (non-empty, no slash): any string is accepted as a code.
- app.py (`create_app`, blueprint registration, the startup print): process startup glue. The `RedisService` constructor followed by `InitRedis` stands in for it.
- The Redis client itself (the TCP connection, `ping`, `decode_responses`): the ping outcome is the `pingSucceeds` parameter, which changes nothing but a log line.
- Redis failures once `r` is set (ConnectionError and the like), which neither handler catches: the model assumes every command it sends succeeds.
- Environment configuration (services.py:5-7): external input. The port read from the environment is a string, while its default is an int.
- Concurrency and atomicity of INCR across processes: each operation is one sequential, atomic step.
- Services.Generate: does not model Redis's 64-bit limit on INCR, because the counter is an unbounded `nat`.
- Counter values this service did not write (negative or non-numeric at `next_short_id`): the counter is a `nat` or absent. A state holding a URL at `next_short_id` with no counter, where INCR would raise, can still be written down; `Services.Consistent` excludes it, and the methods of `RedisService` require and keep it.
- Codec.BaseEncode: an empty alphabet, where the source raises IndexError or ZeroDivisionError for every `num >= 0`, is excluded by the precondition.
- Print and logging side effects (services.py:24, 26; app.py:12).
