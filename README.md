# AutogeneratedClassNotInConstructorFinder in Dafny

This project models Magento's static-test helper `AutogeneratedClassNotInConstructorFinder`.
Given the source text of a PHP class, the helper finds every `get(X::class)` and `create(X::class)` call.
It resolves each `X` to a fully qualified class name, using the file's `use` statements and its namespace.
It then reports the names that the enclosing class does not request in its constructor.
Names the virtual-class registry knows are never reported.
These are classes the object manager creates at run time, which the compiler would then not generate.

Layout:

- `php_text.dfy`: module `Wrappers` (an `Option` type) and module `PhpText`.
  `PhpText` holds the PHP built-ins the helper uses (`ltrim`, `strpos`, string truthiness).
  It also holds the character classes and ASCII case folding of its PCRE patterns.
- `patterns.dfy`: module `Patterns`. The four regular expressions are written out as predicates on start positions in the file content.
  These are the call-site pattern scanned by `preg_match_all`, and the three `use`-statement patterns of `matchPartialNamespace`.
  Predicates (`CallSpelled`, `ImportSpelled`, `AliasSpelled`) describe the texts each pattern accepts, and lemmas prove in both directions that these are exactly the texts the position functions match. Further lemmas show that the scan is leftmost and non-overlapping.
- `finder.dfy`: module `Finder`, which holds:
  - name resolution (`MatchPartialNamespace`, `ResolveReference`);
  - constructor-argument lists (`TypeNames`);
  - the reference definition of what `find` reports (`Reported`, built on the filter `Kept`), with its properties;
  - the class `AutogeneratedClassNotInConstructorFinder`, whose methods `Find` and `GetConstructorArguments` keep the source's loops and are proved equal to those definitions.

The class's collaborators are inputs:

- `ClassNameExtractor` is injected through the constructor, as in the source. Here it is a pair of functions of the file content (`getNameWithNamespace`, `getNamespace`).
  `matchPartialNamespace` asks the extractor for the namespace only when rules (a) to (c) all fail. `Find` asks once, before its loop, and rule (d) uses that answer. The name rule (d) builds is the same either way, because the extractor is a function of the file content. How often the extractor is called is not modelled.
- `Classes::isVirtual` is a predicate parameter `isVirtual` of `Find`.
- PHP reflection is a `Reflection` map from class name to the constructor's parameters. A missing key means the class cannot be loaded. `None` means the class has no constructor. Otherwise each parameter has its declared type, or `None` when it is untyped.
  `new \ReflectionClass` throws for a class it cannot load, and `find` does not catch that. The model returns `ReflectionError(className)` in that case.

Behaviour the model follows because the code does it:

- Rule (a) (`^use\s([a-z0-9\\]+<short>);$`) does not require a namespace separator before the short name.
  So `use Foo\MyBar;` is matched for `Bar`, and `Bar` resolves to `Foo\MyBar` when no earlier line matches. Rule (c) behaves the same way. See `Patterns.ImportLineRecognized`.
- `\s` after `use` and around `as` matches any one white-space character, a line feed included. An import whose name starts on the line after `use` is therefore recognised. `\s*` inside the call parentheses may span lines too. See `Patterns.ImportRecognized`, `Patterns.AliasRecognized` and `Patterns.CallSiteRecognized`.
- All four patterns are case-insensitive: `GET`, `Create`, `::CLASS`, `USE`, `As` and a short name written in another case all match.
  Rules (a) and (b) return the name as the `use` line spells it. Rule (c) joins the `use` line's prefix to the reference as the call site spells it. Rule (d) uses the call site's spelling.
- The constructor filter applies only when the extracted class name is truthy in PHP, so `"0"` disables it just as `""` does.
- `(get|create)` has no word boundary, so `forget(X::class)` is a call site too.

## Model

| member | source | states |
|---|---|---|
| PhpText.LTrim | vendor/magento/magento2-base/dev/tests/static/framework/Magento/TestFramework/Utility/AutogeneratedClassNotInConstructorFinder.php:53 | `ltrim($s, '\\')` removes every leading backslash: the result is a suffix of the input, everything removed was a backslash, and the result does not start with one |
| PhpText.IndexOf | vendor/magento/magento2-base/dev/tests/static/framework/Magento/TestFramework/Utility/AutogeneratedClassNotInConstructorFinder.php:121 | `strpos`: the position of the first occurrence of the character, or none when it does not occur |
| Patterns.CallAt | vendor/magento/magento2-base/dev/tests/static/framework/Magento/TestFramework/Utility/AutogeneratedClassNotInConstructorFinder.php:41 | a match of the call-site pattern at a position ends after it and captures a non-empty name of letters, digits and backslashes |
| Patterns.ClassArgument | vendor/magento/magento2-base/dev/tests/static/framework/Magento/TestFramework/Utility/AutogeneratedClassNotInConstructorFinder.php:41 | the part of the call-site pattern after `(` ends after its start, within the text, and captures a non-empty name |
| Patterns.Scan | vendor/magento/magento2-base/dev/tests/static/framework/Magento/TestFramework/Utility/AutogeneratedClassNotInConstructorFinder.php:40-44 | every reference `preg_match_all` collects is a non-empty name of letters, digits and backslashes |
| Patterns.ScanEmpty | vendor/magento/magento2-base/dev/tests/static/framework/Magento/TestFramework/Utility/AutogeneratedClassNotInConstructorFinder.php:40-47 | no reference is collected exactly when the call-site pattern matches at no position |
| Patterns.ScanLeftmost | vendor/magento/magento2-base/dev/tests/static/framework/Magento/TestFramework/Utility/AutogeneratedClassNotInConstructorFinder.php:40-44 | the first collected reference comes from the leftmost match, and the scan resumes after the end of that match (matches do not overlap) |
| Patterns.NoCallSites | vendor/magento/magento2-base/dev/tests/static/framework/Magento/TestFramework/Utility/AutogeneratedClassNotInConstructorFinder.php:40-47 | a file yields no reference exactly when the call-site pattern matches at no position in it |
| Patterns.KeywordEnd | vendor/magento/magento2-base/dev/tests/static/framework/Magento/TestFramework/Utility/AutogeneratedClassNotInConstructorFinder.php:41 | where the keyword alternative `get` or `create`, in any case, ends; no contract of its own, see `Patterns.KeywordAt` |
| Patterns.KeywordAt | vendor/magento/magento2-base/dev/tests/static/framework/Magento/TestFramework/Utility/AutogeneratedClassNotInConstructorFinder.php:41 | `get` or `create`, in any case, makes the keyword alternative match and end right after it; the two alternatives never both match |
| Patterns.ArgumentRecognized | vendor/magento/magento2-base/dev/tests/static/framework/Magento/TestFramework/Utility/AutogeneratedClassNotInConstructorFinder.php:41 | every text `\s*<name>::class\s*)` (any white space, `::class` in any case) is matched by the part after `(`, capturing the name as written |
| Patterns.ArgumentSpelledOf | vendor/magento/magento2-base/dev/tests/static/framework/Magento/TestFramework/Utility/AutogeneratedClassNotInConstructorFinder.php:41 | conversely, every match of the part after `(` has that spelling |
| Patterns.CallSiteRecognized | vendor/magento/magento2-base/dev/tests/static/framework/Magento/TestFramework/Utility/AutogeneratedClassNotInConstructorFinder.php:41 | every spelling the call-site pattern accepts (`get` or `create` and `::class` in any case, any white space, line feeds included, inside the parentheses) is a call site capturing the reference as written and ending after `)` |
| Patterns.CallSiteSpelled | vendor/magento/magento2-base/dev/tests/static/framework/Magento/TestFramework/Utility/AutogeneratedClassNotInConstructorFinder.php:41 | conversely, every call site has such a spelling, so the pattern matches nothing else |
| Patterns.CallSiteNames | vendor/magento/magento2-base/dev/tests/static/framework/Magento/TestFramework/Utility/AutogeneratedClassNotInConstructorFinder.php:40-46 | `$shortNameMatches[2]`: every collected reference is a non-empty name; see `Patterns.ScanLeftmost` and `Patterns.NoCallSites` for order and emptiness |
| Patterns.UseAt | vendor/magento/magento2-base/dev/tests/static/framework/Magento/TestFramework/Utility/AutogeneratedClassNotInConstructorFinder.php:106 | the capture group of each of the three `use` patterns, when it matches at a position, is a non-empty name |
| Patterns.UseClause | vendor/magento/magento2-base/dev/tests/static/framework/Magento/TestFramework/Utility/AutogeneratedClassNotInConstructorFinder.php:106 | the part of each `use` pattern after `^use\s` captures a non-empty name when it matches |
| Patterns.FirstUse | vendor/magento/magento2-base/dev/tests/static/framework/Magento/TestFramework/Utility/AutogeneratedClassNotInConstructorFinder.php:110 | finds the leftmost position where a `use` pattern matches, and reports none only when it matches nowhere |
| Patterns.FirstCapture | vendor/magento/magento2-base/dev/tests/static/framework/Magento/TestFramework/Utility/AutogeneratedClassNotInConstructorFinder.php:110 | `$matches[1][0]` is set exactly when the pattern matches somewhere, and is then the capture of the leftmost match |
| Patterns.ImportRecognized | vendor/magento/magento2-base/dev/tests/static/framework/Magento/TestFramework/Utility/AutogeneratedClassNotInConstructorFinder.php:106 | every spelling of rule (a)'s pattern (`use` in any case at a line start, any one white-space character, a name run ending in the short name in any case, `;` at the end of the line) is matched, capturing the whole name; rule (c)'s pattern matches the same line, capturing the part before the segment |
| Patterns.AliasRecognized | vendor/magento/magento2-base/dev/tests/static/framework/Magento/TestFramework/Utility/AutogeneratedClassNotInConstructorFinder.php:114 | every spelling of rule (b)'s pattern (`use` and `as` in any case, any one white-space character after `use` and around `as`, the alias in any case, `;` at the end of the line) is matched, capturing the imported name |
| Patterns.UseSpelled | vendor/magento/magento2-base/dev/tests/static/framework/Magento/TestFramework/Utility/AutogeneratedClassNotInConstructorFinder.php:106-124 | conversely, every match of a `use` pattern has the spelling its recognition lemma describes |
| Patterns.ImportLineRecognized | vendor/magento/magento2-base/dev/tests/static/framework/Magento/TestFramework/Utility/AutogeneratedClassNotInConstructorFinder.php:105-111 | a line `use<sp><prefix><short>;`, with `use` and the short name in any case and any one white-space character `<sp>`, is matched by the rule (a) pattern, capturing `<prefix><short>` as the line spells it |
| Patterns.AliasLineRecognized | vendor/magento/magento2-base/dev/tests/static/framework/Magento/TestFramework/Utility/AutogeneratedClassNotInConstructorFinder.php:113-119 | a line `use<sp><name><sp>as<sp><alias>;`, with `use`, `as` and the alias in any case and any one white-space character at each `<sp>`, is matched by the rule (b) pattern for the alias, capturing `name` |
| Finder.MatchPartialNamespace | vendor/magento/magento2-base/dev/tests/static/framework/Magento/TestFramework/Utility/AutogeneratedClassNotInConstructorFinder.php:103-136 | the four resolution rules; no contract of its own, see the four lemmas below |
| Finder.ResolvesByImport | vendor/magento/magento2-base/dev/tests/static/framework/Magento/TestFramework/Utility/AutogeneratedClassNotInConstructorFinder.php:105-111 | rule (a): when a line `use <prefix><reference>;` matches, the first such line gives the whole imported name |
| Finder.ResolvesByAlias | vendor/magento/magento2-base/dev/tests/static/framework/Magento/TestFramework/Utility/AutogeneratedClassNotInConstructorFinder.php:112-119 | rule (b): without an import of the reference, the first line `use <name> as <reference>;` gives `name` |
| Finder.ResolvesByPartialNamespace | vendor/magento/magento2-base/dev/tests/static/framework/Magento/TestFramework/Utility/AutogeneratedClassNotInConstructorFinder.php:120-129 | rule (c): without either, when the first separator of the reference is at a position above 0, the first line `use <prefix><segment>;` for the segment before it gives `prefix` followed by the whole reference |
| Finder.ResolvesByNamespace | vendor/magento/magento2-base/dev/tests/static/framework/Magento/TestFramework/Utility/AutogeneratedClassNotInConstructorFinder.php:130-131 | rule (d): when no earlier rule applies, the result is the namespace, a backslash, and the reference |
| Finder.FirstSeparatorUnique | vendor/magento/magento2-base/dev/tests/static/framework/Magento/TestFramework/Utility/AutogeneratedClassNotInConstructorFinder.php:121 | `strpos` returns the position of the first namespace separator |
| Finder.ResolveReference | vendor/magento/magento2-base/dev/tests/static/framework/Magento/TestFramework/Utility/AutogeneratedClassNotInConstructorFinder.php:48-53 | a resolved name never starts with a backslash |
| Finder.QualifiedReferenceIgnoresContext | vendor/magento/magento2-base/dev/tests/static/framework/Magento/TestFramework/Utility/AutogeneratedClassNotInConstructorFinder.php:48-53 | a reference starting with `\` resolves to itself with all leading backslashes stripped, whatever the `use` lines and the namespace |
| Finder.ResolvedNames | vendor/magento/magento2-base/dev/tests/static/framework/Magento/TestFramework/Utility/AutogeneratedClassNotInConstructorFinder.php:46-53 | one resolved name per matched reference, none starting with a backslash |
| Finder.ResolvedNamesAt | vendor/magento/magento2-base/dev/tests/static/framework/Magento/TestFramework/Utility/AutogeneratedClassNotInConstructorFinder.php:46-53 | the name at position `i` is the resolution of the `i`-th matched reference alone, independent of the other references |
| Finder.TypeNames | vendor/magento/magento2-base/dev/tests/static/framework/Magento/TestFramework/Utility/AutogeneratedClassNotInConstructorFinder.php:86-91 | at most one entry per parameter, and no entry starts with a backslash |
| Finder.TypeNamesConcat | vendor/magento/magento2-base/dev/tests/static/framework/Magento/TestFramework/Utility/AutogeneratedClassNotInConstructorFinder.php:86-91 | the list for concatenated parameter lists is the concatenation of their lists (declaration order is kept) |
| Finder.TypeNamesSingle | vendor/magento/magento2-base/dev/tests/static/framework/Magento/TestFramework/Utility/AutogeneratedClassNotInConstructorFinder.php:87-90 | an untyped parameter contributes nothing, a typed one exactly its trimmed type |
| Finder.TypeNamesMembers | vendor/magento/magento2-base/dev/tests/static/framework/Magento/TestFramework/Utility/AutogeneratedClassNotInConstructorFinder.php:86-91 | a type is listed exactly when some typed parameter declares it, up to leading backslashes |
| Finder.ConstructorArguments | vendor/magento/magento2-base/dev/tests/static/framework/Magento/TestFramework/Utility/AutogeneratedClassNotInConstructorFinder.php:79-94 | the argument list exists exactly when the class can be loaded, and no entry starts with a backslash; see `Finder.TypeNamesMembers` and `Finder.TypeNamesConcat` for its entries |
| Finder.AutogeneratedClassNotInConstructorFinder.GetConstructorArguments | vendor/magento/magento2-base/dev/tests/static/framework/Magento/TestFramework/Utility/AutogeneratedClassNotInConstructorFinder.php:79-94 | the loop builds the trimmed types of the typed parameters in order, and an empty list without a constructor; it fails exactly when the class cannot be loaded |
| Finder.Keeps | vendor/magento/magento2-base/dev/tests/static/framework/Magento/TestFramework/Utility/AutogeneratedClassNotInConstructorFinder.php:55-67 | the two `continue` tests: a name is kept when it is not virtual and not among the injected types; see `Finder.KeptMembers` |
| Finder.Kept | vendor/magento/magento2-base/dev/tests/static/framework/Magento/TestFramework/Utility/AutogeneratedClassNotInConstructorFinder.php:55-67 | the filtered list is no longer than the resolved names; see the four lemmas below |
| Finder.KeptConcat | vendor/magento/magento2-base/dev/tests/static/framework/Magento/TestFramework/Utility/AutogeneratedClassNotInConstructorFinder.php:47-68 | the filter is applied name by name, in match order: the result for a concatenation is the concatenation of the results |
| Finder.KeptMultiplicity | vendor/magento/magento2-base/dev/tests/static/framework/Magento/TestFramework/Utility/AutogeneratedClassNotInConstructorFinder.php:55-67 | a name that passes the filter is kept as often as it occurs (no deduplication), a name that fails never |
| Finder.KeptSubsequence | vendor/magento/magento2-base/dev/tests/static/framework/Magento/TestFramework/Utility/AutogeneratedClassNotInConstructorFinder.php:47-68 | the filtered names form a subsequence of the resolved names |
| Finder.KeptMembers | vendor/magento/magento2-base/dev/tests/static/framework/Magento/TestFramework/Utility/AutogeneratedClassNotInConstructorFinder.php:55-67 | a name is kept exactly when it was matched, is not virtual and is not injected |
| Finder.Reported | vendor/magento/magento2-base/dev/tests/static/framework/Magento/TestFramework/Utility/AutogeneratedClassNotInConstructorFinder.php:36-71 | what `find` returns for the resolved names; no contract of its own, see `Finder.ReportedFails`, `Finder.ReportedFiltered`, `Finder.ReportedWithoutClassName` and `Finder.ReportedOrderAndDuplicates` |
| Finder.FindReport | vendor/magento/magento2-base/dev/tests/static/framework/Magento/TestFramework/Utility/AutogeneratedClassNotInConstructorFinder.php:36-71 | the outcome of `find` on a file; no contract of its own, see `Finder.FindReportShape` and `Finder.AutogeneratedClassNotInConstructorFinder.Find` |
| PhpText.PhpTruthy | vendor/magento/magento2-base/dev/tests/static/framework/Magento/TestFramework/Utility/AutogeneratedClassNotInConstructorFinder.php:60 | `if ($className)`: the empty string and `"0"` are false, every other string true; see `Finder.ReportedWithoutClassName` |
| Finder.ReportedFails | vendor/magento/magento2-base/dev/tests/static/framework/Magento/TestFramework/Utility/AutogeneratedClassNotInConstructorFinder.php:59-61 | `find` fails exactly when the class name is truthy, its class cannot be loaded, and at least one resolved name is not virtual |
| Finder.ReportedFiltered | vendor/magento/magento2-base/dev/tests/static/framework/Magento/TestFramework/Utility/AutogeneratedClassNotInConstructorFinder.php:55-65 | every reported name was matched and is not virtual; with a truthy class name, the class was loadable and the name is none of its constructor argument types |
| Finder.ReportedWithoutClassName | vendor/magento/magento2-base/dev/tests/static/framework/Magento/TestFramework/Utility/AutogeneratedClassNotInConstructorFinder.php:59-60 | with an empty or falsy class name the constructor filter is skipped: no failure, and every non-virtual name is reported as often as it was matched |
| Finder.ReportedOrderAndDuplicates | vendor/magento/magento2-base/dev/tests/static/framework/Magento/TestFramework/Utility/AutogeneratedClassNotInConstructorFinder.php:38-70 | the report is an order-preserving subsequence of the resolved names, and each reported name appears as often as it was matched |
| Finder.FindReportShape | vendor/magento/magento2-base/dev/tests/static/framework/Magento/TestFramework/Utility/AutogeneratedClassNotInConstructorFinder.php:38-53 | no reported name starts with a backslash, and a file with no call site reports nothing |
| Finder.ReportedStep | vendor/magento/magento2-base/dev/tests/static/framework/Magento/TestFramework/Utility/AutogeneratedClassNotInConstructorFinder.php:55-67 | the outcome for one more name: a virtual name or one among the constructor's types is skipped, a class that cannot be loaded makes reflection fail, any other name is appended |
| Finder.ReportedFailsAt | vendor/magento/magento2-base/dev/tests/static/framework/Magento/TestFramework/Utility/AutogeneratedClassNotInConstructorFinder.php:58-61 | one non-virtual name is enough for `find` to fail when the class name is truthy and its class cannot be loaded |
| Finder.AutogeneratedClassNotInConstructorFinder.Find | vendor/magento/magento2-base/dev/tests/static/framework/Magento/TestFramework/Utility/AutogeneratedClassNotInConstructorFinder.php:36-71 | the `foreach`/`continue` loop returns exactly the report of the reference definition for the file, its extractor, registry and reflection |
| Finder.AutogeneratedClassNotInConstructorFinder.constructor | vendor/magento/magento2-base/dev/tests/static/framework/Magento/TestFramework/Utility/AutogeneratedClassNotInConstructorFinder.php:24-28 | stores the injected class-name extractor |

## Left out

- The PCRE engine. The four patterns are written out as predicates, character by character. Pattern failures such as the backtracking limit, where `preg_match_all` returns `false`, are not modelled.
- Text is a sequence of characters, where PHP works on bytes. The patterns only involve ASCII, so this changes no match.
- `\ReflectionClass` and `ReflectionType` are given as data. Two consequences follow:
  - The model looks class names up by exact string, whereas PHP finds classes case-insensitively and may autoload them.
  - The string form of each declared type (for example `?Foo` for a nullable type) is taken as given.
- `in_array` uses PHP's loose comparison. The model uses exact string equality. Two different numeric strings that PHP compares as equal numbers are therefore not treated as equal.
- `Classes::isVirtual` and `ClassNameExtractor::getNameWithNamespace` / `getNamespace` are not part of this model. They are taken as a predicate and as two functions of the file content.
- An uncaught `ReflectionException` is a value (`ReflectionError`), not an exception that unwinds the caller.
