# Parsedown extension manager, modelled in Dafny

`Nessworthy\ParsedownExtensionManager\Parsedown` is a subclass of the Parsedown
Markdown parser. It lets an integrator plug in block extensions
(`start`/`continue`/`complete`) and inline extensions (`run`) without
changing the parser. It does this in three parts:

- **Registry.** `registerBlockExtension` and `registerInlineExtension` check
  the extension's starting character first. They then file the extension
  under its object hash (its identity) and append that identity to the
  host's `BlockTypes` or `InlineTypes` list for the character's first byte.
  An inline registration also adds the character to the host's
  `inlineMarkerList`.
- **Marker list.** `addToMarkerList` appends a character only when the
  character is not already in the list.
- **Dispatcher.** The host asks for extension code by method name:
  `block<id>`, `block<id>Continue`, `block<id>Complete`, `inline<id>`.
  `__call` parses the name, finds the registered extension and forwards the
  arguments to it. It throws `ExtensionNotFoundException` for an unknown
  identity and `\Error` for a name with neither prefix. It also widens the
  host's `isBlockContinuable`/`isBlockCompletable` so that they hold for every
  registered block identity.

The project has four files:

- `wrappers.dfy` holds `Option`, `Result` and `Outcome`.
- `php_strings.dfy` models PHP's `strpos` (the first occurrence), `empty()` on
  strings, and repetition-free strings.
- `routing.dfy` is the pure name parser of `__call` (`RouteOf`). It also holds
  the naming convention (`NameOf`) and the proof that they invert each other:
  `NameOf(RouteOf(n)) == n` for every name, and `RouteOf(NameOf(r)) == r`
  exactly when `r` is `Routable`. The key fact is that a capital `C` occurs
  only at the start of `Continue` and `Complete`. So a phase suffix cannot
  overlap the `block` prefix, cannot straddle the end of an identity, and
  `substr($name, 5, -8)` always receives a well-formed range.
- `parsedown.dfy` holds the class `Parsedown<E>` over extension objects of
  type `E`. Its fields are the two registries and the three host tables the
  class writes to. `Valid()` is the invariant the registrations keep: the
  identity function is injective, the marker list has no repeated character,
  and each registered extension is filed under its own identity and listed
  under its key character (inline ones also in the marker list).

Behaviour of the code worth noting:

- An identity is the object's hash, not a fresh token per registration.
  Registering the same object twice rewrites the same registry entry and
  appends the identity to the type list a second time.
- `empty()` rejects the starting character `"0"` as well as `""`.
- The exceptions are `InvalidArgumentException`, `ExtensionNotFoundException`
  and `\Error`, with the code's exact messages.
- The marker set is an ordered string that only grows by appending.

## Model

| member | source | states |
|---|---|---|
| `PhpStrings.StrPos` | src/Parsedown.php:121 | `strpos`: the result is an occurrence and no earlier index is one; `None` (PHP `false`) exactly when the needle occurs nowhere; `Some(0)` exactly when the needle is a prefix |
| `PhpStrings.StrPosCharacter` | src/Parsedown.php:154 | `strpos` with a one-character needle is `false` exactly when the character is not in the string |
| `Routing.RouteOf` | src/Parsedown.php:118-145 | a name is routed to a block phase exactly when it starts with `block`; to `inline` exactly when it starts with `inline` and not with `block`; otherwise it is undefined and keeps the whole name |
| `Routing.PhaseSuffixFollowsPrefix` | src/Parsedown.php:120-128 | in a name starting with `block`, any occurrence of `Continue` or `Complete` lies after the prefix, so `substr($name, 5, -8)` cuts a well-formed range |
| `Routing.FirstOccurrenceAtJoin` | src/Parsedown.php:121 | appending `Continue` (or `Complete`) to `x` puts the first occurrence at the join exactly when `x` does not contain it |
| `Routing.SuffixTestOfBlockName` | src/Parsedown.php:121-127 | the suffix test on `block`+`y` holds exactly when `y` ends in the suffix and that is its first occurrence |
| `Routing.OtherSuffixFails` | src/Parsedown.php:121-131 | a name ending in one phase suffix never passes the other suffix's test, so the `Continue`-before-`Complete` order cannot misroute it |
| `Routing.SuffixTestOfPhaseName` | src/Parsedown.php:121-127 | `block`+`id`+suffix passes that suffix's test exactly when `id` does not contain the suffix |
| `Routing.PhaseNameSplits` | src/Parsedown.php:120-128 | a `block` name that passes a phase suffix test is exactly `block`, the identity `substr($name, 5, -8)` cuts out, and the suffix |
| `Routing.NameOfRouteOf` | src/Parsedown.php:118-142 | every name is the convention name of its route: prefix, identity and suffix put back together give the name |
| `Routing.RouteOfNameOf` | src/Parsedown.php:118-142 | parsing the convention name of a route gives the route back exactly when the route is routable (both directions) |
| `Routing.RouteOfIsRoutable` | src/Parsedown.php:118-142 | every parsed route is routable, so parsing is a bijection between names and routable routes |
| `Routing.RoutableWithoutCapitalC` | src/Parsedown.php:164-167 | an identity without a capital `C`, such as a lower-case hexadecimal object hash, comes back intact from all four name forms |
| `ExtensionManager.Parsedown.constructor` | src/Parsedown.php:18-21 | both registries start empty; the host tables are the host's; the invariant holds |
| `ExtensionManager.Parsedown.ExtensionCharacter` | src/Parsedown.php:175-188 | the key is the first character of the starting character; a starting character of `""` or `"0"` yields `InvalidArgumentException` with the code's message |
| `ExtensionManager.Parsedown.FindBlockExtension` | src/Parsedown.php:89-95 | succeeds exactly for a registered block identity and returns that extension, whose own identity it is; otherwise fails with `Block extension <id> not found!` |
| `ExtensionManager.Parsedown.FindInlineExtension` | src/Parsedown.php:102-108 | the same for inline identities, with `Inline extension <id> not found!` |
| `ExtensionManager.Parsedown.IsBlockContinuable` | src/Parsedown.php:66-70 | true for every registered block identity; for any other type tag it is the host's own answer |
| `ExtensionManager.Parsedown.IsBlockCompletable` | src/Parsedown.php:78-82 | true for every registered block identity; for any other type tag it is the host's own answer |
| `ExtensionManager.Parsedown.Dispatch` | src/Parsedown.php:118-145 | a name with neither prefix fails with `Call to undefined method Nessworthy\ParsedownExtensionManager\Parsedown::<name>`; a `block` name reaches the block extension of its identity, with the phase and arguments of its suffix, or fails naming the identity; an `inline` name does the same for `run` |
| `ExtensionManager.Parsedown.AddToMarkerList` | src/Parsedown.php:152-157 | an existing marker leaves the list as it was; a new one is appended once; the old list is a prefix of the new one; a list without repeats stays without repeats |
| `ExtensionManager.Parsedown.FilingKeepsIndex` | src/Parsedown.php:29-38 | filing an extension under its identity and appending the identity to its character's type list keeps every registered extension indexed, and leaves every earlier entry as it was |
| `ExtensionManager.Parsedown.RegisterBlockExtension` | src/Parsedown.php:27-39 | an empty starting character fails before anything is written; otherwise the block map gains identity ↦ extension and the character's block list gains the identity at its end; nothing else changes; no earlier identity is displaced; the extension can then be found, and both widened predicates hold for its identity; the invariant is kept |
| `ExtensionManager.Parsedown.RegisterInlineExtension` | src/Parsedown.php:45-58 | the same on the inline map and `InlineTypes`, and the character is a marker afterwards (added once); the block side is untouched |
| `ExtensionManager.BlockNamesDispatch` | src/Parsedown.php:120-136 | `block<id>`, `block<id>Continue` and `block<id>Complete` call `start(a0, a1)`, `continue(a0, a1)` and `complete(a0)` on the extension registered under `id`, or fail with `Block extension <id> not found!` |
| `ExtensionManager.InlineNameDispatch` | src/Parsedown.php:138-142 | `inline<id>` calls `run(a0)` on the inline extension registered under `id`, or fails with `Inline extension <id> not found!` |
| `ExtensionManager.CallByName` | src/Parsedown.php:118-145 | on `block<id>`, `block<id>Continue`, `block<id>Complete` and `inline<id>`, `__call` returns the answer of `start(a0, a1)`, `continue(a0, a1)`, `complete(a0)` or `run(a0)` of the extension registered under `id`, or fails with the not-found message naming `id`; on a name with neither prefix it fails with `Call to undefined method …::<name>` |
| `ExtensionManager.UnregisteredBlockCall` | tests/ParsedownTest.php:89-97 | `blockFakeExtensionContinue` with nothing registered under `FakeExtension` fails with `Block extension FakeExtension not found!` |
| `ExtensionManager.UnregisteredInlineCall` | tests/ParsedownTest.php:99-107 | `inlineFakeExtension` fails with `Inline extension FakeExtension not found!` |
| `ExtensionManager.UndefinedMethodCall` | tests/ParsedownTest.php:79-87 | `methodThatDoesntExist` fails with `Call to undefined method Nessworthy\ParsedownExtensionManager\Parsedown::methodThatDoesntExist` |
| `ExtensionManager.RegisterTwoBlockExtensions` | src/Parsedown.php:34-38 | two block extensions with the same key character are listed, and so tried by the host, in registration order |

## Left out

- The host `Parsedown` class is not part of this model. That covers parsing, line splitting, block and inline scanning, and HTML rendering. Its native `isBlockContinuable`/`isBlockCompletable` are the constants `hostContinuable`/`hostCompletable`. Its `BlockTypes`, `InlineTypes` and `inlineMarkerList` are constructor parameters. The constructor requires the host's marker list to have no repeated character, as Parsedown's own list has none.
- `spl_object_hash` is the constant `identity`, assumed injective over all extension values. PHP only guarantees distinct hashes among objects alive at the same time.
- `getStartingCharacter` and `get_class` are the constants `startingCharacter` and `className`. The code calls `getStartingCharacter` twice; the model assumes both calls give the same answer.
- The bodies of `start`, `continue`, `complete` and `run` are foreign code. `Dispatch` returns which of them is called, on which extension and with which arguments. `Call` applies an opaque `perform` to that and returns its answer.
- PHP's `__call` mechanism is not modelled: `Dispatch` covers only names that are not methods of the class. A missing `$arguments[i]` becomes `None`, standing for the `null` PHP reads there.
- Block and inline extensions share one type `E`, so PHP's parameter type checks (`ParsedownBlockExtension`, `ParsedownInlineExtension`) are not modelled.
- PHP strings are bytes. Here each `char` is one byte, and multi-byte starting characters are not treated specially (the code also keeps only their first byte).
- PHP's conversion of decimal-integer string keys to integer keys is not modelled. Identities and characters are compared as strings.
- src/ParsedownExtensionManager.php is only an interface declaration and is not part of this model.
- The end-to-end rendering tests (tests/ParsedownTest.php:57-77) depend on the host's rendering and are not modelled.
