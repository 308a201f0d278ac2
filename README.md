# Bilibili link codec and webhook front-end of a Telegram bot, in Dafny

The bot is a Flask application that Telegram calls through a webhook. This project models
the parts of it that compute something and proves properties of them:

- **`modules/bilibili.py`**: the BV/AV identifier codec.
  - `_ab_table` is the 58-character digit table. `_ab_tr` is its inverse, built by a loop.
  - `_ab_s` lists the six slots. `_ab_xor` and `_ab_add` scramble the number.
  - `av2bv` writes the base-58 digits of the scrambled AV number into the template `BV1  4 1 7  `.
  - `bv2av` reads them back.
  - `b23_to_full_clear` handles short links. It puts `https://b23.tv/` in front of any argument that does not contain `b23.tv/`. It cuts the redirect target before its first `?`. By default, it replaces the `BV…` id with `av` and the number.
- **`utils.py`**:
  - `_make_json` stamps a `timestamp` into a copy of the data, serialises it and forces the `content-type` header.
  - `_dict_map` applies `to_dict` to each element.
- **`bot.py`**:
  - The start-up checks on `BOT_TOKEN` and `WEBHOOK_SECRET`.
  - The routing in `on_request`: webhook, then control, then info.
  - `sendMessage`, which rewrites `parse_mode='md'` to `'MarkdownV2'`.
  - `replyMessage`, which adds `chat_id` and `reply_to_message_id` from the update.
- **`info.py`**: `on_info`, the JSON answer of the info endpoint.

The model has one module per file:

- `Wrappers`: `Option` and `Result`.
- `PyStrings`: the Python string operations the codec uses. These are `in`, `index`, `replace` and `'{}'.format` of an `int`.
- `Bilibili`, `Utils`, `Bot` and `Info`.

Python's unbounded integers are Dafny `int`.

- Python's `^` on a negative integer acts on the infinite two's-complement form. `XorInt` models exactly that, so `av2bv` and `bv2av` need no precondition on their inputs.
- Python's `//` and `%` by a positive number round towards minus infinity. They coincide with Dafny's `/` and `%`.

Every exception that the modelled string, codec and keyword-argument code raises is a `Failure` value. The `AttributeError` in `replyMessage` is not modelled; see below.

| Python exception | Raised by | Model |
|---|---|---|
| `IndexError` | `bv2av` on a string shorter than 12 characters | `IndexOutOfRange` |
| `KeyError` | `bv2av` on a slot character that is not in the table | `UnknownDigit` |
| `ValueError` | `index('?')` or `index('BV')` that finds nothing | `NoQueryString`, `NoBvId` |
| `TypeError` | a keyword argument given twice in `replyMessage` | `DuplicateKeyword` |

The `location` header and the clock reading come from outside the process, and `json.dumps` is library code; all three are parameters.

The code calls `exit` when `BOT_TOKEN` or `WEBHOOK_SECRET` is missing or empty; `Startup` then returns a `Failure`.

## Model

| member | source | states |
|---|---|---|
| Bilibili.Pow58 | modules/bilibili.py:23 | `58 ** i` is positive, so the digit divisions of line 31 and the place values of line 23 are well defined |
| Bilibili.XorInt | modules/bilibili.py:24-28 | Python's `^` with the non-negative mask: the result is negative exactly when the argument is, and its lowest bit is set exactly when the two lowest bits differ |
| Bilibili.XorIntShift | modules/bilibili.py:24-28 | above the lowest bit, `a ^ mask` is `(a >> 1) ^ (mask >> 1)`: with the lowest bit, this fixes every bit of the result, negative arguments included |
| Bilibili.XorInvolutive | modules/bilibili.py:24-28 | XOR with the mask undoes itself for every integer, negative ones included, so `bv2av` can undo the scrambling `av2bv` applies |
| Bilibili.Digit | modules/bilibili.py:31 | the digit `x // 58 ** i % 58` is below 58, so indexing `_ab_table` with it never fails, whatever the sign of `x` |
| Bilibili.TableDistinct | modules/bilibili.py:11 | the table has 58 characters and no character twice, so `_ab_tr` loses nothing |
| Bilibili.TableHasNoQuestionMark | modules/bilibili.py:11 | no table character is `?`, so a BV id never contains the `?` that `b23_to_full_clear` cuts at |
| Bilibili.Inverse | modules/bilibili.py:12-14 | `_ab_tr` maps each `_ab_table[i]` to `i`; every key is a table character and maps back to its own position |
| Bilibili.BuildInverse | modules/bilibili.py:12-14 | the module-level loop builds exactly that inverse map |
| Bilibili.SlotsDistinct | modules/bilibili.py:15 | `_ab_s` holds six distinct positions, each below the template's length 12 |
| Bilibili.SlotsAreBlanks | modules/bilibili.py:15 | the six positions in `_ab_s` are exactly the blanks of the template `BV1  4 1 7  ` |
| Bilibili.Scrambled | modules/bilibili.py:28 | `(x ^ _ab_xor) + _ab_add` loses nothing: subtracting `_ab_add` and XORing with `_ab_xor` again, as line 24 does, gives `x` back for every integer |
| Bilibili.Filled | modules/bilibili.py:29-31 | writing digits into the template keeps its 12 characters |
| Bilibili.EncodeAv | modules/bilibili.py:27-32 | the value `av2bv` returns has the template's 12 characters and holds `_ab_table` of digit `i` of the scrambled number in slot `_ab_s[i]`, for each `i` from 0 to 5 |
| Bilibili.Av2Bv | modules/bilibili.py:27-32 | the loop over a character array returns the template with digit `i` of the scrambled number written in slot `_ab_s[i]`, for `i` from 0 to 5 |
| Bilibili.FilledContents | modules/bilibili.py:29-31 | after `k` steps, slot `i < k` holds `_ab_table` of digit `i`, and every position that is not one of those slots still holds the template's character |
| Bilibili.EncodeShape | modules/bilibili.py:27-32 | every output of `av2bv` is 12 characters, starts with `BV1`, has `4`, `1`, `7` at positions 5, 7, 9, and has a table character in each slot |
| Bilibili.SlotSum | modules/bilibili.py:21-23 | summing the slots succeeds exactly when every slot read so far holds a table character; on success the sum lies in `0 .. 58 ** k - 1`; a failure is always a `KeyError` for an unknown digit |
| Bilibili.SlotSumFirstBad | modules/bilibili.py:22-23 | a failed sum reports the character of the first slot, in reading order, that is not in the table; all slots before it were valid |
| Bilibili.DecodeBv | modules/bilibili.py:20-24 | `bv2av` raises `IndexError` exactly when the string is shorter than 12; it succeeds exactly when the string is long enough and all six slots hold table characters |
| Bilibili.Bv2Av | modules/bilibili.py:20-24 | the loop, with its early exits on a short string or an unknown digit, computes the same result or error |
| Bilibili.DecodeDependsOnlyOnSlots | modules/bilibili.py:22-23 | two strings that agree at positions 11, 10, 3, 8, 4 and 6 decode identically, whatever else they hold |
| Bilibili.EncodedSlotSum | modules/bilibili.py:20-32 | reading the first `k` slots of an `av2bv` output gives the scrambled number modulo `58 ** k` |
| Bilibili.SlotSumInjective | modules/bilibili.py:22-23 | two strings with equal successful slot sums agree at every slot read: base-58 digits are unique |
| Bilibili.ReEncode | modules/bilibili.py:20-32 | a BV-shaped string is exactly the filled template of its own slot sum |
| Bilibili.DecodeEncoded | modules/bilibili.py:20-32 | `bv2av(av2bv(x))` is `x` with the scrambled number reduced modulo `58 ** 6` before unscrambling |
| Bilibili.UnscrambleReduced | modules/bilibili.py:24-28 | unscrambling the reduced number gives `x` back exactly when the scrambled number was already in `0 .. 58 ** 6 - 1` |
| Bilibili.RoundTrip | modules/bilibili.py:20-32 | `bv2av(av2bv(x)) == x` if and only if `(x ^ _ab_xor) + _ab_add` lies in `0 .. 58 ** 6 - 1` |
| Bilibili.ReverseRoundTrip | modules/bilibili.py:20-32 | every BV-shaped string decodes, and `av2bv` of the decoded number gives the same string back |
| Bilibili.EncodeModulo | modules/bilibili.py:27-32 | two numbers get the same BV string if and only if their scrambled values agree modulo `58 ** 6` |
| Bilibili.BvHasNoQuestionMark | modules/bilibili.py:27-32 | no BV-shaped string contains `?` |
| Bilibili.ShortLinkUrl | modules/bilibili.py:40-41 | the requested URL always contains `b23.tv/`; it is the argument unchanged if and only if the argument already contains `b23.tv/`, and otherwise it is `https://b23.tv/` followed by the argument |
| Bilibili.ClearLink | modules/bilibili.py:35-47 | with `to_av` defaulting to true, the call fails with the `index('?')` error if and only if the location has no `?`; without `to_av` it cannot fail in any other way |
| Bilibili.ClearLinkCutsQuery | modules/bilibili.py:43 | without `to_av` the call fails if and only if the location has no `?`; otherwise the result is the location's prefix before its first `?` and contains no `?` |
| Bilibili.ClearLinkToAv | modules/bilibili.py:44-46 | with `to_av`, a successful result is the cut location up to its first `BV`, then `av`, then the decimal form of `bv2av` of the rest; the replacement touches nothing before the `BV` |
| Bilibili.ClearLinkToAvOutcome | modules/bilibili.py:44-46 | with `to_av` and a `?` in the location, the call fails with the `index('BV')` error if and only if the cut location has no `BV`; when it has one, the call succeeds if and only if `bv2av` of the suffix succeeds, and a `bv2av` failure is passed on unchanged |
| Bilibili.ClearLinkHasNoQuery | modules/bilibili.py:43-47 | every successful result, with or without `to_av`, is free of `?` |
| Bilibili.ClearLinkVideo | modules/bilibili.py:35-47 | a location made of a prefix without `?` or `BV`, then `av2bv(x)`, then `?` and a query, becomes the prefix followed by `av` and `x` in decimal, for every `x` in the codec's round-trip range |
| PyStrings.Find | modules/bilibili.py:43 | `str.index`/`find`: a found position holds an occurrence and no earlier position does; no result means no occurrence anywhere |
| PyStrings.Contains | modules/bilibili.py:40 | `sub in s` holds if and only if `sub` occurs at some position of `s` |
| PyStrings.ReplaceFinalOccurrence | modules/bilibili.py:46 | `str.replace` of a pattern whose first occurrence runs to the end of the string keeps everything before it and appends the replacement |
| PyStrings.ReplaceAll | modules/bilibili.py:46 | `str.replace` of a non-empty pattern: replacing a pattern by itself changes nothing, and a replacement of the pattern's length keeps the string's length |
| PyStrings.ReplaceWithoutOccurrence | modules/bilibili.py:46 | `str.replace` leaves a string without the pattern unchanged |
| PyStrings.IntToString | modules/bilibili.py:46 | `'{}'.format(n)` of an `int` is non-empty, starts with `-` exactly for negative `n` and with a digit otherwise, and has only decimal digits after the first character; it starts with `0` only when it is `0` itself, and a `-` is never followed by `0` |
| PyStrings.IntToStringIsIntText | modules/bilibili.py:46 | every output of `'{}'.format(n)` is canonical decimal text: digits with no leading zero, optionally after a `-` that is not followed by `0` alone |
| PyStrings.IntTextRoundTrip | modules/bilibili.py:46 | every canonical decimal text is the output for its own value, so together with the round trip below the text written for `n` is the only canonical text with value `n` |
| PyStrings.IntToStringRoundTrip | modules/bilibili.py:46 | parsing the decimal text back gives the same integer, so the `av` number in the link is the decoded number |
| Utils.OptionalStr | info.py:10-11 | a string or `None`, as JSON: `None` becomes `null` and nothing else does; a string becomes the JSON string itself |
| Utils.Stamped | utils.py:20-22 | the serialised dict has the keys of `data` plus `timestamp`; every entry of `data` is unchanged; a missing `timestamp` becomes the clock reading |
| Utils.MakeJson | utils.py:10-29 | the body is `dumps` of the stamped copy and the status is passed through; `content-type` is always `application/json`; the other given headers are kept; with no headers or empty ones, that is the only header |
| Utils.DictMap | utils.py:32-36 | the list has one entry per element, in order, each the element's `to_dict()` |
| Bot.IsSet | bot.py:17-21 | Python's truth test on an environment variable, here and for `CONTROL_SECRET` at line 87: false exactly for `None` and the empty string |
| Bot.Startup | bot.py:16-22 | start-up succeeds if and only if `BOT_TOKEN` and `WEBHOOK_SECRET` are both set and non-empty; a missing `BOT_TOKEN` is reported first; the configuration holds the three values read |
| Bot.Arg | bot.py:88-90 | `request.args.get(key)` is `None` exactly when the key is absent, and the argument's value otherwise |
| Bot.ArgOr | bot.py:84-87 | `request.args.get(key, default)` is `get(key)` with `None` replaced by the default |
| Bot.OnRequest | bot.py:83-90 | the webhook route is taken if and only if `whs` (default `''`) equals `WEBHOOK_SECRET`; the control route only with a set `CONTROL_SECRET` equal to `ctrl`; control and info receive `args.get('action')` |
| Bot.ControlRoute | bot.py:87-88 | the control route is taken if and only if the webhook check fails, `CONTROL_SECRET` is set and non-empty, and `ctrl` equals it |
| Bot.WebhookIgnoresOtherArgs | bot.py:84-86 | a request with the right `whs` takes the webhook route whatever `ctrl` and `action` hold |
| Bot.RouteDependsOnThreeArgs | bot.py:83-90 | two requests that agree on `whs`, `ctrl` and `action` are routed identically |
| Bot.NoSecretNoPrivilege | bot.py:84-88 | after a successful start-up, a request without `whs` never reaches the webhook, and with `CONTROL_SECRET` unset or empty no request reaches the control endpoint |
| Bot.SendMessage | bot.py:51-60 | the arguments passed on have the same keys; `parse_mode='md'` becomes `'MarkdownV2'`; every other argument is unchanged |
| Bot.ReplyMessage | bot.py:63-71 | the call raises `TypeError` if and only if `args` already holds `chat_id` or `reply_to_message_id`; otherwise the message goes out with both ids from the update, and the other arguments go through the `sendMessage` rewrite |
| Info.InfoResult | info.py:4-11 | the result always holds `action`; for `action == 'base_url'` its keys are `base_url` and `action`, with the request's base URL; otherwise they are `hello` and `action`, with the remote address or `null` |
| Info.OnInfo | info.py:4-12 | the response has status 200, only the JSON `content-type` header, and the serialised stamped result as body |
| Info.InfoPayload | info.py:11-12 | the serialised info dict has exactly three keys: `timestamp` with the clock reading, `action`, and one of `base_url` or `hello` |

## Left out

- The HTTP request in `b23_to_full_clear` (modules/bilibili.py:42) is outside the model. `ClearLink` takes the `location` header as a parameter. The `KeyError` for a response without that header is not modelled.
- `timestamp8601` (utils.py:5-7) reads the clock. Its ISO 8601 text is the parameter `now`.
- `json.dumps(..., indent=2)` (utils.py:23) is the function parameter `dumps`. Its output format is not modelled.
- Utils.MakeJson: Dafny maps are unordered, so the key order of the body is not modelled. Python writes `data`'s keys in insertion order with `timestamp` appended last, and `on_info`'s body lists `base_url` or `hello`, then `action`, then `timestamp`; the model's `dumps` sees only the set of entries.
- Utils.MakeJson: Dafny maps are values, so the caller's `data` and `headers` cannot observe the copies the source makes. Aliasing is therefore not modelled.
- Utils.Value: covers JSON-compatible values without floats: `null`, booleans, integers, strings, lists and dicts. A `float` in the data is not modelled. Keyword arguments of other Python types, such as a `telegram` reply markup object, are not modelled.
- Utils.DictMap: takes the iterable as a finite sequence and `to_dict` as a function parameter. The `python-telegram-bot` objects themselves are not part of this model.
- Bot.ReplyMessage: `Bot.Update` holds the chat id and message id as plain integers, so the `AttributeError` raised when `update.effective_chat` or `update.effective_message` is `None` (bot.py:69-70) is not modelled.
- Bot.ReplyMessage: when both `chat_id` and `reply_to_message_id` are in `args`, Python names whichever comes first in `args`. The contract only says that the named keyword is one of the duplicates.
- The call into the Telegram client at the end of `sendMessage` (bot.py:60) is outside the model. `SendMessage` returns the keyword arguments it would pass.
- Flask itself is outside the model: the request object, the response tuple and the HTTP server. `request.args` is a map. `on_info` reads `base_url` and `remote_addr`, which are the `Info.Request` datatype.
- `on_webhook` (bot.py:74-76) is reduced to the `Webhook` route, whose answer is `'OK'`. `Update.de_json` and the dispatcher are external library code.
- `add_command` (bot.py:33-48) only registers a handler with the external dispatcher.
- The `Updater` construction (bot.py:23-25) and the logging set-up are outside the model. The start-up `exit` is the `Failure` of `Bot.Startup`.
- `on_control` (control.py), `db.py`, `commands.py`, `inline_queries.py` and `main.py` are not part of this model.
- `bv2av` on an argument that is not a string is not modelled.
