# Router of Core.php, modelled in Dafny

This project models the front controller `Core` of a small PHP MVC framework. It covers two things:

- **`route()`** takes the request URI and cuts it at the first `?`. It trims every leading and trailing `/`, splits the rest on `/` and drops the falsy pieces (`""` and `"0"`).
  - The first piece, ucfirst'ed, names the controller when it is truthy. A leading `"0"` piece gives the controller `""` (see Findings).
  - `array_shift` then drops the first kept segment, even when a leading `"0"` left the controller `""`. The second kept segment names the action and the rest are the parameters.
  - If the path is falsy, the configured `defaultController` and `defaultAction` are kept instead.
  - It then checks the class `app\controllers\<Name>Controller` and its action method against the loadable classes. It stops with `<class> Controller Not Exist!` or `<action> Action Not Exist!`, or constructs the controller with `(controllerName, actionName)` and calls the action with the parameters spread positionally.
- **`loadClass()`** is the autoloader's name-to-file rule. A class name containing `\` is looked up as `APP_PATH` + the name with every `\` made `/` + `.php`, and included if that path is a file. Any other name is ignored.

The project has five modules, one per file:

- `Options` holds the optional value.
- `PhpString` holds the string built-ins route() relies on, with their laws:
  - truthiness;
  - strpos;
  - trim and its left and right halves;
  - explode and implode;
  - ucfirst;
  - single-character str_replace.
- `PhpArray` holds PHP's integer-keyed arrays as lists of key/value entries:
  - `array_filter` drops falsy values and *keeps* keys;
  - `$a[k]` reads a key;
  - `array_shift` renumbers the keys.
- `Core` holds the following:
  - the normalisation functions;
  - `ResolvePath`, the route as the code computes it;
  - `ResolveSegments`, the route as the router is meant to compute it;
  - the imperative method `Route`, which follows `route()` step by step over those PHP arrays;
  - `ClassFile` and `LoadClass`.
- `CoreProperties` proves the following:
  - the normalisation, default, filtering, capitalisation and positional-assignment laws;
  - how the code as written relates to the intended resolution;
  - the facts about class loading.

The global `$_SERVER['REQUEST_URI']`, the configuration and the set of loadable classes are parameters. The set of loadable classes is a map from class name to its method names. The two `exit()`s become results of a `Dispatch` datatype, and so does the final construction and call. `is_file` is a predicate parameter.

## Model

| member | source | states |
|---|---|---|
| Core.Route | Core.php:40-88 | The resolved route is the one `ResolveAsWritten` gives for the URI. The result depends on that route: an absent controller class gives exactly `class + " Controller Not Exist!"`; a present class without the action gives exactly `action + " Action Not Exist!"`; otherwise it constructs the class with `[controllerName, actionName]` and invokes the action with the parameters in order. |
| Core.KeyedArraySteps | Core.php:55-68 | On a truthy path, the keyed PHP array steps give the route `ResolvePath` states. The steps are explode, array_filter, a read of key 0 (null read as ""), array_shift, then the first value or the default action, then array_shift and the remaining values. |
| Core.BeforeQuery | Core.php:48-49 | The result holds no `?` and is a prefix of the URI. A URI without `?` is unchanged. A URI with `?` is cut exactly before its first `?`. |
| Core.RoutePath | Core.php:46-51 | The normalised path holds no `?`. It neither starts nor ends with `/`. |
| Core.Segments | Core.php:55-57 | Every segment is truthy and holds no `/`. |
| Core.ResolveSegments | Core.php:42-68 | This is the intended resolution. No segments give both defaults. Otherwise the controller is ucfirst of the first segment. With two or more segments, the first segment, the action and the params put together are the segments again; with fewer, the action is the default and params is []. The number of params is max(0, \|segs\| - 2). The action is the default or a segment, and every param is a segment. |
| Core.ResolvePath | Core.php:53-68 | The route as the code computes it from a normalised path. A falsy path ("" or "0") gives both defaults and no params. The action is the default or a segment, and every param is a segment. There are fewer params than segments, or none. |
| Core.ResolveAsWritten | Core.php:46-68 | The route as the code computes it from a URI. A URI whose normalised path is falsy gives both defaults. The action is the default or truthy without `/`. Every param is truthy and holds no `/`. |
| Core.ResolveIntended | Core.php:46-68 | The route a URI is meant to resolve to. No segments give both defaults. The action is the default or truthy without `/`. Every param is truthy and holds no `/`. |
| Core.ControllerClass | Core.php:72 | The class name is the controller namespace, then the controller name unchanged, then "Controller". The ensures give its length and each of the three parts. |
| Core.ClassFile | Core.php:263 | The file is appPath, the name with each `\` replaced by `/`, then `.php`. The ensures give its length and every position. |
| Core.LoadClass | Core.php:258-272 | A name without `\` includes nothing. A name with `\` includes its class file exactly when `isFile` holds for that file. |
| PhpString.Truthy | Core.php:53 | "" is falsy, and only strings of length at most 1 can be falsy. A one-character string is falsy exactly when it is "0". |
| PhpString.StrPosAppend | Core.php:48 | Text appended after the first occurrence does not change strpos. |
| PhpString.StrPosPrepend | Core.php:48 | A different character in front moves the occurrence by one, and an absent character stays absent. |
| PhpString.StrPos | Core.php:48 | None exactly when the character is absent. Otherwise the result is an index holding the character with none before it. |
| PhpString.TrimLeft | Core.php:51 | The result is a suffix of the input and only separators were removed. It does not start with a separator. |
| PhpString.TrimRight | Core.php:51 | The result is a prefix of the input and only separators were removed. It does not end with a separator. |
| PhpString.Trim | Core.php:51 | The result is a window of the input with only the trimmed character before and after it. It neither starts nor ends with that character, so it is exactly the input with its leading and trailing runs removed. |
| PhpString.TrimWindow | Core.php:51 | The window the two trims leave starts right after the leading run, and only the trimmed character lies on either side of it. |
| PhpString.TrimKeepsOut | Core.php:51 | Trimming adds no character. |
| PhpString.TrimLeading | Core.php:51 | One more leading separator does not change the trim. |
| PhpString.TrimTrailing | Core.php:51 | One more trailing separator does not change the trim. |
| PhpString.TrimFixed | Core.php:51 | A string without separators at its edges is its own trim. |
| PhpString.TrimOnlySeparator | Core.php:51 | A string made only of separators trims to "". |
| PhpString.Explode | Core.php:55 | There is at least one piece, and no piece holds the separator. |
| PhpString.ImplodeExplode | Core.php:55 | implode undoes explode: joining the pieces with the separator gives back the string. |
| PhpString.ExplodeImplode | Core.php:55 | explode undoes implode for at least one piece, none holding the separator. |
| PhpString.ExplodeNoSeparator | Core.php:55 | A string without the separator explodes into itself alone. |
| PhpString.ExplodeSplit | Core.php:55 | In x + sep + y with x free of sep, the first piece is x and the rest are the pieces of y. |
| PhpString.ExplodeConcat | Core.php:55 | explode(x + sep + y) is explode(x) followed by explode(y). |
| PhpString.ExplodeThree | Core.php:55 | a + sep + b + sep + c, with no sep among them, explodes into [a, b, c]. |
| PhpString.FirstPiece | Core.php:55 | For a string not starting with the separator, the first piece is non-empty. It is "0" exactly when the string is "0" or starts with "0" and a separator. |
| PhpString.UpperAscii | Core.php:60 | Only a-z change, each to its upper-case letter 32 code points lower. The result is never a-z. |
| PhpString.UcFirst | Core.php:60 | The length is kept and everything after the first character is unchanged. A first character in a-z becomes its upper-case letter (32 code points lower). A string not starting with a-z is unchanged. |
| PhpString.UcFirstIdempotent | Core.php:60 | Applying ucfirst twice gives the same string as applying it once. |
| PhpString.LowerAscii | Core.php:60 | Only A-Z change, each to its lower-case letter 32 code points higher. The source has no lcfirst: this is the reference inverse of ucfirst's shift behind UcFirstUndone. |
| PhpString.UcFirstUndone | Core.php:60 | For a string starting with a-z, lower-casing the first character of its ucfirst gives the string back. |
| CoreProperties.CapitalisationExample | Core.php:60 | ucfirst turns "classAndStu" into "ClassAndStu" and leaves "ClassAndStu" unchanged. |
| PhpString.ReplaceChar | Core.php:263 | The length is kept, and each position is replaced exactly when it holds the replaced character. |
| PhpString.ReplaceCharConcat | Core.php:263 | The replacement distributes over concatenation. |
| PhpString.ReplaceCharAbsent | Core.php:263 | A string without the replaced character is unchanged. |
| PhpString.ReplaceSeparators | Core.php:263 | In a + from + b + from, with no from in a or b, exactly the two separators become to. |
| PhpString.ReplaceCharInverse | Core.php:263 | Replacing back undoes the replacement when the target character was absent. |
| PhpArray.Values | Core.php:67-68 | array_values keeps the length and the values in order. |
| PhpArray.ListFrom | Core.php:55 | The values are stored under consecutive keys in order. |
| PhpArray.List | Core.php:55 | explode's array is a list (keys 0, 1, ...) of exactly the pieces. |
| PhpArray.Kept | Core.php:57 | At most as many values as the input, all truthy and all from the input. Every truthy input value is kept. An input of truthy values only is kept whole. |
| PhpArray.KeptConcat | Core.php:57 | Filtering a concatenation filters each part. |
| PhpArray.ArrayFilter | Core.php:57 | The values are the truthy input values in order. Every entry, key included, is an entry of the input. The entries are a subsequence of the input, so keys keep their input order. |
| PhpArray.FilterHead | Core.php:57 | array_filter decides the first entry, then filters the rest. |
| PhpArray.FilterKeepsKeysFrom | Core.php:57 | Keys stay no smaller than any bound they met before filtering. |
| PhpArray.FilteredListKeyZero | Core.php:57-60 | After array_filter on explode's list, key 0 holds the first piece when it is truthy. Otherwise key 0 is absent. |
| PhpArray.Lookup | Core.php:60-64 | None exactly when no entry has the key. Otherwise the result is stored under the key. |
| PhpArray.LookupFirstOfList | Core.php:64 | In a non-empty list, key 0 holds the first value. |
| PhpArray.ArrayShift | Core.php:63-67 | The result is a list of the values after the first, or [] for an empty array. |
| CoreProperties.QueryStringIgnored | Core.php:47-49 | u + "?" + q has the same normalised path as u. |
| CoreProperties.LeadingSlashIgnored | Core.php:51 | A leading `/` does not change the path. |
| CoreProperties.TrailingSlashIgnored | Core.php:51 | A trailing `/` does not change the path. |
| CoreProperties.RoutePathIdempotent | Core.php:48-51 | Normalising a normalised path changes nothing. |
| CoreProperties.NormalPath | Core.php:51 | A path without `?` and without `/` at its edges is the normalised path of "/" + p and of "/" + p + "/". |
| CoreProperties.OnlySlashesGiveDefaults | Core.php:42-53 | A URI whose part before `?` is only slashes resolves to both defaults and no params, as written and as intended. |
| CoreProperties.FalsyPathHasNoSegments | Core.php:53-57 | "" and "0" have no segments. |
| CoreProperties.NoSegments | Core.php:42-68 | A path with no segments gets the default action and no params. Its controller is the default only for "" and "0"; for any other such path (such as "0/0") it is "". |
| CoreProperties.ResolvePathCongruence | Core.php:53-68 | The route depends only on the path's truthiness, its first piece and its segments. |
| CoreProperties.ExplodeInsert | Core.php:55 | Inserting a piece between a and b adds exactly that piece to the pieces. |
| CoreProperties.FalsyPieceIgnored | Core.php:55-57 | An inserted "" or "0" piece changes neither the segments nor the route. |
| CoreProperties.RepeatedSlashes | Core.php:51-57 | "/x//y/" resolves exactly like "/x/y" for single pieces x and y. |
| CoreProperties.RepeatedSlashesPaths | Core.php:51 | "/x//y/" normalises to "x//y" and "/x/y" to "x/y". |
| CoreProperties.RepeatedSlashExample | Core.php:51-57 | "/user//profile/" resolves exactly like "/user/profile". |
| CoreProperties.PositionalAssignment | Core.php:63-68 | For every path, the number of params is max(0, \|segments\| - 2). Two or more segments give action = second segment and params = the segments from index 2 on, unchanged. Fewer give the default action and no params. |
| CoreProperties.ControllerFromFirstSegment | Core.php:57-60 | When the first piece is kept, the controller is the first segment with only its first character upper-cased. |
| CoreProperties.AsWrittenAgainstIntended | Core.php:53-68 | The code resolves every URI as intended unless its path starts with a `"0"` piece followed by `/`. Then the controller is "", and the code and the intended route differ whenever there is a segment or the default controller is not "". |
| CoreProperties.LeadingZeroDropsSegment | Core.php:57-64 | "/0/x/y" resolves, as written, to ("", y, []). The intended route is (ucfirst(x), y, []). |
| CoreProperties.LeadingZeroExample | Core.php:57-64 | "/0/user/profile" resolves, as written, to ("", "profile", []). The intended route is ("User", "profile", []). |
| CoreProperties.LeadingZeroExplode | Core.php:55 | "0/x/y" explodes into "0", x and y. |
| CoreProperties.KeptAfterZero | Core.php:57 | Of the pieces "0", x, y, array_filter keeps x and y. |
| CoreProperties.ZeroFirstPiece | Core.php:57-68 | With pieces "0", x, y, the segments are [x, y] and the route is ("", y, []). |
| CoreProperties.ControllerClassInjective | Core.php:72 | Different controller names give different class names. |
| CoreProperties.ControllerNameSeparators | Core.php:72 | Every controller class name holds a `\` in its namespace part. The "Controller" suffix holds none. |
| CoreProperties.NamespacePath | Core.php:263 | The controller namespace as a path is "app/controllers/". |
| CoreProperties.ControllerClassFile | Core.php:258-272 | The autoloader includes appPath + "app/controllers/" + name + "Controller.php" for a controller, with `\`s of the name made `/`, exactly when that is a file. |
| CoreProperties.NamespacedClassFile | Core.php:258-272 | loadClass of p + s + q, where p holds `\` and q none, checks the file built piece by piece. |
| CoreProperties.ClassFileOfWrapped | Core.php:263 | The class file of p + s + q, with no `\` in q, is built piece by piece. |
| CoreProperties.LoadClassInjective | Core.php:261-271 | Two class names without `/` that include the same file are the same name. |

## Left out

- `__construct`, `run()` and its `set*` calls are not part of this model. They read `config/config.php`, define global constants and register the autoloader. The two configuration values route() reads are a `Config` parameter instead.
- `setReporting` and `unregisterGlobals` only set runtime options and globals. route() never calls them.
- `stripSlashesDeep` applies PHP's `stripslashes` to a value, recursing into arrays, and returns the result. route() never calls it.
- The diagnostics PHP prints on the leading-"0" path (see Findings) are not modelled. Reading the missing key `$urlArray[0]` raises an undefined-key warning, and from PHP 8.1 on `ucfirst(null)` raises a deprecation notice. When `APP_DEBUG` is true, `setReporting` turns `display_errors` on (Core.php:93-95), and that text is printed before the exit message. The model keeps only the value the read gives (null, so controller `""`).
- `definePath`, `loadSystemAuthentication` and `LICENSE_KEY` are static data with no routing logic.
- `spl_autoload_register` and `include` are runtime services. `LoadClass` returns the file that would be included, and `is_file` is the `isFile` predicate parameter.
- `class_exists`, `method_exists`, `new` and `call_user_func_array` are reflection. The first two become membership tests on the `Registry` map. PHP's case-insensitive class and method lookup is not modelled, so names are compared exactly. The last two become the `Invoke` record.
- Core.Route: does not model that `class_exists` may itself run the autoloader, which may fail to find a file. The registry is taken to be the classes that load.
- The `exit` output and what the invoked controller action then does are outside the router.
- PhpString.UcFirst: works on characters rather than bytes and ignores locale. Only ASCII a-z are upper-cased, as PHP does in its default locale.
- The missing-controller message holds the whole namespaced class name, for example `app\controllers\NopeController Controller Not Exist!` (Core.php:72-74), not only `NopeController`. The model states this message.

## Findings

| source | as written | input that shows it | evidently intended | confidence | as-written member | corrected member |
|---|---|---|---|---|---|---|
| Core.php:57-64 | `array_filter` keeps keys, so when the first `/`-piece is `"0"`, `$urlArray[0]` is missing. The controller becomes `ucfirst(null) == ""`, and `array_shift` then drops the first real segment. The path `"0/0"` also gives controller `""` instead of the default. | `"/0/user/profile"` resolves to `("", "profile", [])`, so "user" is lost and the controller class is `app\controllers\Controller`. | The filtered segments are `["user", "profile"]`, so the controller is `"User"` and the action is `"profile"`. A path with no segments keeps both defaults. | not executed | CoreProperties.LeadingZeroExample | Core.ResolveSegments |
