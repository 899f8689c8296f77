# Terminus request layer in Dafny

This project models the request layer of the Terminus command-line client
(`Terminus\Request`). That layer is what every API call goes through. Before
it hands a request to the HTTP library, it does four things:

- `send` assembles the request options. It takes default headers (User-Agent,
  Content-type and, when a session exists, a Cookie header) and merges the
  caller's options into them with `array_merge_recursive`. It copies
  `form_params` to `json`. It collects the cookies for the client's cookie jar
  and then drops `cookies` from the options. It passes the method name
  through `ucwords`.
- `fillCookieJar` collects the cookies for the jar: the session cookie, then
  the caller's cookies merged over it with `array_merge`.
- `getBaseUri` formats the API's base URI.
- `userAgent` formats the user-agent string.

The model has four modules:

- `PhpArrays` (`php_arrays.dfy`) models PHP's ordered arrays as sequences of
  key/value entries. It covers lookup, `isset`, assignment, `unset`,
  appending, `array_merge` and `array_merge_recursive` with PHP's own rules:
  - string keys are overwritten or merged;
  - integer keys are appended and renumbered;
  - a scalar meeting another value under the same key becomes a list.
- `PhpStrings` (`php_strings.dfy`) models `ucwords` with its default
  delimiters.
- `Request` (`request.dfy`) models the request layer itself.
  - The session store, the configuration constants and `phpversion()` are
    inputs.
  - `Send` is a method that returns what `send` hands to the transport: the
    method, the URI, the base URI, the options, and the cookies handed to
    `CookieJar::fromArray`.
- `Wrappers` (`wrappers.dfy`) holds `Option` and `Result`.

Two consequences of the code are worth stating:

- `array_merge_recursive` keeps both values when a default header and a
  caller header share a name, the default first, so a caller cannot replace
  a default header (`Request.ScalarsCombine`).
- A stored session of `""` or `"0"` counts as no session, because the code
  tests the session with PHP truthiness.

## Model

| member | source | states |
|---|---|---|
| Request.Send | php/Terminus/Request.php:30-65 | The request fails exactly when the caller's `cookies` are set but are not an array. Otherwise each merged header is the default combined with the caller's header of that name. User-Agent, Content-type and the session Cookie keep their default, alone or first in a list. Without a session, Cookie is whatever the caller sent. Every other caller option passes through unchanged. `json` is the caller's `form_params` when those are set. `cookies` is gone. The integer-keyed options are the caller's, renumbered from 0. The cookies handed to `CookieJar::fromArray` are computed from the caller's `cookies` before that key is removed. The merged headers' integer-keyed values are the caller's unnamed header values. The base URI is the configured one. The method name is the caller's, put through `ucwords`. |
| Request.MergedOptions | php/Terminus/Request.php:31-41 | Merging the caller's options into the defaults yields, for every header name, the default combined with the caller's header. Every option other than `headers` is the caller's. |
| Request.HeadersMergeStep | php/Terminus/Request.php:41 | The merged options hold the merged headers, the caller's other options and the caller's integer-keyed values. The result is renumbered and a valid array. |
| Request.JsonCopy | php/Terminus/Request.php:42-44 | The `json` copy changes only `json`, which then holds `form_params` when those are set. The integer-keyed entries stay the same and the array stays valid. |
| Request.JsonStep | php/Terminus/Request.php:41-44 | After the merge and the `json` copy, every option but `headers` and `json` is the caller's, and `json` is the caller's `form_params` when those are set. |
| Request.CookiesRemoved | php/Terminus/Request.php:53 | `unset($params['cookies'])` leaves no `cookies` key, keeps every other key's value and the integer-keyed entries, and keeps the array valid. |
| Request.CookiesStep | php/Terminus/Request.php:53 | Removing `cookies` changes no other option and keeps the integer keys renumbered. |
| Request.DefaultHeadersBuilt | php/Terminus/Request.php:31-40 | The default headers are User-Agent and Content-type, plus the session Cookie only when there is a session. |
| Request.DefaultsSurvive | php/Terminus/Request.php:31-41 | No caller header can remove the User-Agent, Content-type or session Cookie default. The Cookie header is set by default only when there is a session. |
| Request.DefaultSurvives | php/Terminus/Request.php:41 | A scalar default stays, alone or at the head of a list, whatever the caller sends under the same name. |
| Request.ScalarsCombine | php/Terminus/Request.php:41 | A default scalar and a caller scalar under one name become the list [default, caller]. |
| Request.FillCookieJar | php/Terminus/Request.php:109-120 | The jar's cookies fail exactly when the caller's `cookies` are set but are not an array. Their integer keys are renumbered from 0. |
| Request.NoSessionNoCookies | php/Terminus/Request.php:110-117 | With no session (nothing stored, or a stored "" or "0") and no caller cookies, the jar is empty. |
| Request.SessionCookieOnly | php/Terminus/Request.php:111-114 | With a session and no caller cookies, the jar holds only the session cookie. |
| Request.CallerCookiesOverride | php/Terminus/Request.php:115-117 | Caller cookies override and extend the session cookie. Each caller cookie has the caller's value; the session cookie stays unless the caller names it; nothing else is added. |
| Request.FromArrayResultDiscarded | php/Terminus/Request.php:118-119 | As written, the returned jar is empty even when the collected cookies hold the session. |
| Request.BaseUriRoundTrip | php/Terminus/Request.php:127-135 | Protocol, host and port can be read back from the base URI when the protocol and port have no ':'. |
| Request.UserAgentRoundTrip | php/Terminus/Request.php:157-165 | Version, PHP version and script can be read back from the user agent when the version has no space and the PHP version no '&'. |
| Request.UserAgentExample | php/Terminus/Request.php:158-163 | A concrete user agent: version "2.0", PHP version "8.1" and script "terminus" give "Terminus/2.0 (php_version=8.1&script=terminus)". |
| Request.BaseUri | php/Terminus/Request.php:127-135 | The base URI starts with the protocol and "://", ends with ":" and the port, and is four characters longer than its three parts. |
| Request.UserAgent | php/Terminus/Request.php:157-165 | The user agent starts with "Terminus/", ends with ")", and is 32 characters longer than its three parts. |
| Request.SessionToken | php/Terminus/Request.php:38 | There is a session exactly when a value is stored and PHP reads it as true (neither "" nor "0"); the token is then the stored value. |
| Request.FillCookieJarAsWritten | php/Terminus/Request.php:109-120 | As written, `fillCookieJar` fails exactly when the corrected one does, and otherwise returns an empty jar. |
| Request.DefaultHeader | php/Terminus/Request.php:31-40 | A default header exists exactly for User-Agent, Content-type, and Cookie when there is a session; each is a string. |
| Request.ListedHeadersAppended | php/Terminus/Request.php:41 | After the merge, the headers' integer-keyed values are exactly the caller's unnamed header values: the integer-keyed entries of its `headers` array, or a non-array `headers` value itself. |
| PhpStrings.Ucwords | php/Terminus/Request.php:65 | `ucwords` keeps the length. It upper-cases exactly the letters that begin a word and leaves every other character alone. |
| PhpStrings.UcwordsIdempotent | php/Terminus/Request.php:65 | Applying `ucwords` twice is the same as applying it once. |
| PhpStrings.UcwordsMethods | php/Terminus/Request.php:65 | "get" becomes "Get", "post" becomes "Post", and "DELETE" is unchanged. |
| PhpArrays.MergeRecursiveGet | php/Terminus/Request.php:41 | Under each string key, `array_merge_recursive` holds the first array's value if only it has the key, the second's if only it has it, and both combined when both have it. |
| PhpArrays.MergeRecursiveRetains | php/Terminus/Request.php:41 | Whatever the first array holds under a string key is retained in the merge, recursively: nothing is overwritten or reordered. |
| PhpArrays.MergeRecursive | php/Terminus/Request.php:41 | The integer-keyed values of `array_merge_recursive` are the first array's, followed by the second's, and its integer keys are 0, 1, 2 and so on. |
| PhpArrays.MergeRecursiveValid | php/Terminus/Request.php:41 | Merging two valid arrays yields a valid array, with distinct keys at every depth. |
| PhpArrays.MergeFromGet | php/Terminus/Request.php:41 | The per-key merge result over a suffix of the source array. |
| PhpArrays.CombineRetains | php/Terminus/Request.php:41 | Combining two values under one key retains the first. |
| PhpArrays.ArrayMergeGet | php/Terminus/Request.php:116 | Under each string key, `array_merge` holds the second array's value if it has the key, else the first's. |
| PhpArrays.ArrayMerge | php/Terminus/Request.php:116 | The integer-keyed values of `array_merge` are the first's, then the second's, and its integer keys are renumbered from 0. |
| PhpArrays.ArrayMergeValid | php/Terminus/Request.php:116 | `array_merge` of valid arrays is valid. |
| PhpArrays.SetGet | php/Terminus/Request.php:43 | Assignment stores the value under its key and leaves every other key's value alone. |
| PhpArrays.UnsetGet | php/Terminus/Request.php:53 | `unset` removes the key and leaves every other key's value and the integer keys alone. |
| PhpArrays.PushGet | php/Terminus/Request.php:41 | Appending uses a fresh integer key and leaves every existing key's value alone. |
| PhpArrays.Set | php/Terminus/Request.php:39-43 | Assignment keeps every existing key in its position, grows the array by one only when the key is new, and stores the entry. |
| PhpArrays.Unset | php/Terminus/Request.php:53 | `unset` keeps only entries that were already there and whose key is not the removed one. |
| PhpArrays.Push | php/Terminus/Request.php:41 | Appending leaves the existing entries alone and adds the value last, under an integer key that no existing entry has. |
| PhpArrays.IsSetMember | php/Terminus/Request.php:42 | In an array with distinct keys, `isset` holds exactly when some entry has the key and a non-null value. |
| PhpArrays.IsSetAfterSet | php/Terminus/Request.php:42-43 | After assigning a value to a key, `isset` on that key holds exactly when the value is not null. |
| PhpArrays.NextIndexConsecutive | php/Terminus/Request.php:41 | When the integer keys run from b upwards, the next index is one past the last of them, or 0 when there are none. |

## Left out

- The HTTP transport is not part of this model. This covers the Guzzle `Client`, the request object and `$client->send`; `send` is modelled up to the point where it hands its request over.
- `download` is not part of this model. It is file and network I/O.
- `overrideHttpBuildQuery` is not part of this model. It redefines a PHP function at run time.
- The debug log call is left out, because it is only output.
- The session store, the configuration constants and `phpversion()` are left out as code. They are inputs to the model.
- The jar's own handling of cookie domains inside `CookieJar::fromArray` is left out. The model stops at the name/value pairs handed to it.
- PHP floats and objects are left out of `PhpArrays.Value`. A float option (a timeout, say) would pass through `send` like any other scalar. An object under a caller header name that collides with a default would be turned into an array and merged by `array_merge_recursive`; that case is not modelled.
- Turning numeric string keys into integer keys is left out. Keys are assumed already normalised.
- `array_merge_recursive`'s "recursion detected" error on self-referencing arrays is left out. Dafny values cannot refer to themselves.
- PhpArrays.NextIndex: integer keys are unbounded, so the overflow of PHP's largest integer key is not modelled. The next key follows PHP before 8.3 for negative keys.
- PhpStrings.Upper: `ucwords` upper-cases ASCII letters only; locale-dependent case mapping is not modelled.
- Request.Send: its `cookies` field holds the cookies handed to `CookieJar::fromArray`, that is the corrected jar contents. The jar object the code as written hands to the client is empty (see Findings and `Request.FillCookieJarAsWritten`); the model does not carry that jar.
- Request.FillCookieJar: a caller `cookies` value that is not an array is modelled as an error result. PHP's warning from `array_merge` and the later type error are not told apart.

## Findings

| source | as written | input that shows it | evidently intended | confidence | as-written member | corrected member |
|---|---|---|---|---|---|---|
| php/Terminus/Request.php:118 | `$jar->fromArray($cookies, '')` calls the jar library's static factory, which returns a new jar; the result is discarded and the empty jar created at line 110 is returned | a stored session "abc" and no caller cookies: the cookies collected are [X-Pantheon-Session => "abc"], the jar returned is empty | the returned jar holds the collected cookies (`$jar = CookieJar::fromArray($cookies, '')`) | not executed; depends on the jar library's `fromArray` being static, and that library is not part of this model | Request.FromArrayResultDiscarded | Request.FillCookieJar |
