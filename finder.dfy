/**
  AutogeneratedClassNotInConstructorFinder: finds the classes a file creates through the
  object manager (`get(X::class)`, `create(X::class)`) that its class does not request
  in its constructor.

  The collaborators the PHP class reaches outside itself are parameters here:
  - ClassNameExtractor, injected through the constructor, is a pair of functions of the
    file content;
  - the virtual-class registry `Classes::isVirtual` is a predicate on class names;
  - PHP reflection is a Reflection table from class name to constructor parameters.
 */
module Finder {
  import opened Wrappers
  import opened PhpText
  import opened Patterns

  /**
    What `\ReflectionClass` tells about the loaded classes. A class name absent from the map
    cannot be loaded; `None` is a class without a constructor; otherwise the constructor's
    parameters in declaration order, each with the string form of its declared type, or
    `None` when the parameter is untyped.
   */
  type Reflection = map<string, Option<seq<Option<string>>>>

  /** The collaborator that reads the class name and the namespace declared in a file. */
  datatype ClassNameExtractor = ClassNameExtractor(
    getNameWithNamespace: string -> string,
    getNamespace: string -> string)

  /** The outcome of `find`: the reported class names, or the ReflectionException it does not catch. */
  datatype Outcome = Found(classNames: seq<string>) | ReflectionError(className: string)

  // ---------------------------------------------------------------------------
  // Name resolution
  // ---------------------------------------------------------------------------

  /** `$forwardSlashPos` is `k`: the first namespace separator of `s` is at position `k`. */
  predicate FirstSeparatorAt(s: string, k: nat) {
    k < |s| && s[k] == '\\' && forall j :: 0 <= j < k ==> s[j] != '\\'
  }

  /**
    matchPartialNamespace: resolves a reference that does not start with `\`. The four rules
    are tried in order and, within a rule, the first matching line of the file wins; the
    lemmas ResolvesByImport, ResolvesByAlias, ResolvesByPartialNamespace and
    ResolvesByNamespace state each rule.
   */
  function MatchPartialNamespace(fileContent: string, shortName: string, namespace: string): string {
    match FirstCapture(fileContent, ImportOf(shortName))
    case Some(fullName) => fullName
    case None =>
      match FirstCapture(fileContent, AliasAs(shortName))
      case Some(fullName) => fullName
      case None =>
        var forwardSlashPos := IndexOf(shortName, '\\');
        if forwardSlashPos.Some? && forwardSlashPos.value > 0 then
          match FirstCapture(fileContent, ImportEndingIn(shortName[..forwardSlashPos.value]))
          case Some(prefix) => prefix + shortName
          case None => namespace + "\\" + shortName
        else namespace + "\\" + shortName
  }

  /** Rule (a): the first line `use <prefix><shortName>;` gives the whole imported name. */
  lemma ResolvesByImport(fileContent: string, shortName: string, namespace: string, i: nat)
    requires FirstAt(fileContent, i, ImportOf(shortName))
    ensures MatchPartialNamespace(fileContent, shortName, namespace) == UseAt(fileContent, i, ImportOf(shortName)).value
  {
    assert FirstCapture(fileContent, ImportOf(shortName)) == UseAt(fileContent, i, ImportOf(shortName));
  }

  /** Rule (b): without such an import, the first line `use <name> as <shortName>;` gives `name`. */
  lemma ResolvesByAlias(fileContent: string, shortName: string, namespace: string, i: nat)
    requires NoUse(fileContent, ImportOf(shortName))
    requires FirstAt(fileContent, i, AliasAs(shortName))
    ensures MatchPartialNamespace(fileContent, shortName, namespace) == UseAt(fileContent, i, AliasAs(shortName)).value
  {
    assert FirstCapture(fileContent, ImportOf(shortName)).None?;
    assert FirstCapture(fileContent, AliasAs(shortName)) == UseAt(fileContent, i, AliasAs(shortName));
  }

  /**
    Rule (c): without either, when the first separator of the reference is at `k > 0`, the first
    line `use <prefix><segment>;` for the segment before it gives `prefix` followed by the whole reference.
   */
  lemma ResolvesByPartialNamespace(fileContent: string, shortName: string, namespace: string, k: nat, i: nat)
    requires NoUse(fileContent, ImportOf(shortName)) && NoUse(fileContent, AliasAs(shortName))
    requires 0 < k && FirstSeparatorAt(shortName, k)
    requires FirstAt(fileContent, i, ImportEndingIn(shortName[..k]))
    ensures MatchPartialNamespace(fileContent, shortName, namespace) ==
      UseAt(fileContent, i, ImportEndingIn(shortName[..k])).value + shortName
  {
    assert FirstCapture(fileContent, ImportOf(shortName)).None?;
    assert FirstCapture(fileContent, AliasAs(shortName)).None?;
    FirstSeparatorUnique(shortName, k);
    assert FirstCapture(fileContent, ImportEndingIn(shortName[..k])) == UseAt(fileContent, i, ImportEndingIn(shortName[..k]));
  }

  /** Rule (d): when no rule before applies, the namespace of the file, a separator, and the reference. */
  lemma ResolvesByNamespace(fileContent: string, shortName: string, namespace: string)
    requires NoUse(fileContent, ImportOf(shortName)) && NoUse(fileContent, AliasAs(shortName))
    requires forall k :: 0 < k && FirstSeparatorAt(shortName, k) ==> NoUse(fileContent, ImportEndingIn(shortName[..k]))
    ensures MatchPartialNamespace(fileContent, shortName, namespace) == namespace + "\\" + shortName
  {
    assert FirstCapture(fileContent, ImportOf(shortName)).None?;
    assert FirstCapture(fileContent, AliasAs(shortName)).None?;
    var pos := IndexOf(shortName, '\\');
    if pos.Some? && pos.value > 0 {
      assert FirstSeparatorAt(shortName, pos.value);
      assert NoUse(fileContent, ImportEndingIn(shortName[..pos.value]));
    }
  }

  /** `strpos` finds the first separator. */
  lemma FirstSeparatorUnique(s: string, k: nat)
    requires FirstSeparatorAt(s, k)
    ensures IndexOf(s, '\\') == Some(k)
  {
  }

  /** A reference written with a leading `\` is already fully qualified. */
  predicate IsQualified(shortName: string) {
    |shortName| > 0 && shortName[0] == '\\'
  }

  /** The class name `find` derives from one call-site reference, after `ltrim`. */
  function ResolveReference(fileContent: string, shortName: string, namespace: string): (r: string)
    ensures NoLeadingBackslash(r)
  {
    LTrim(if !IsQualified(shortName) then MatchPartialNamespace(fileContent, shortName, namespace) else shortName)
  }

  /** A fully qualified reference resolves to itself without its leading backslashes, whatever the file says. */
  lemma QualifiedReferenceIgnoresContext(text1: string, text2: string, shortName: string, namespace1: string, namespace2: string)
    requires IsQualified(shortName)
    ensures ResolveReference(text1, shortName, namespace1) == ResolveReference(text2, shortName, namespace2) == LTrim(shortName)
    ensures |LTrim(shortName)| < |shortName|
  {
  }

  /** The resolved class names of the call-site references `shortNames` of the file, in order. */
  function ResolvedNames(fileContent: string, shortNames: seq<string>, namespace: string): (names: seq<string>)
    ensures |names| == |shortNames|
    ensures forall k :: 0 <= k < |names| ==> NoLeadingBackslash(names[k])
  {
    if shortNames == [] then []
    else
      ResolvedNames(fileContent, shortNames[..|shortNames| - 1], namespace)
      + [ResolveReference(fileContent, shortNames[|shortNames| - 1], namespace)]
  }

  /** Each call-site reference resolves on its own, whatever its neighbours are. */
  lemma {:induction false} ResolvedNamesAt(fileContent: string, shortNames: seq<string>, namespace: string, i: nat)
    requires i < |shortNames|
    ensures ResolvedNames(fileContent, shortNames, namespace)[i] == ResolveReference(fileContent, shortNames[i], namespace)
  {
    if i < |shortNames| - 1 {
      ResolvedNamesAt(fileContent, shortNames[..|shortNames| - 1], namespace, i);
    }
  }

  // ---------------------------------------------------------------------------
  // Constructor arguments
  // ---------------------------------------------------------------------------

  /** The declared types of the typed parameters, in declaration order, without leading backslashes. */
  function TypeNames(parameters: seq<Option<string>>): (types: seq<string>)
    ensures |types| <= |parameters|
    ensures forall k :: 0 <= k < |types| ==> NoLeadingBackslash(types[k])
    decreases |parameters|
  {
    if parameters == [] then []
    else
      var last := parameters[|parameters| - 1];
      TypeNames(parameters[..|parameters| - 1]) + (if last.Some? then [LTrim(last.value)] else [])
  }

  /** What getConstructorArguments returns for `className`; `None` when `\ReflectionClass` throws. */
  function ConstructorArguments(reflection: Reflection, className: string): (arguments: Option<seq<string>>)
    ensures arguments.Some? <==> className in reflection
    ensures arguments.Some? ==> forall k :: 0 <= k < |arguments.value| ==> NoLeadingBackslash(arguments.value[k])
  {
    if className !in reflection then None
    else match reflection[className]
      case None => Some([])
      case Some(parameters) => Some(TypeNames(parameters))
  }

  /** TypeNames keeps declaration order: the list for a concatenation is the concatenation of the lists. */
  lemma {:induction false} TypeNamesConcat(ps: seq<Option<string>>, qs: seq<Option<string>>)
    ensures TypeNames(ps + qs) == TypeNames(ps) + TypeNames(qs)
    decreases |qs|
  {
    if qs == [] {
      assert ps + qs == ps;
    } else {
      var qs' := qs[..|qs| - 1];
      assert (ps + qs)[..|ps + qs| - 1] == ps + qs';
      TypeNamesConcat(ps, qs');
    }
  }

  /** One entry per typed parameter: an untyped parameter adds nothing, a typed one adds its trimmed type. */
  lemma TypeNamesSingle(p: Option<string>)
    ensures TypeNames([p]) == if p.Some? then [LTrim(p.value)] else []
  {
    assert [p][..0] == [];
  }

  /** A type is listed exactly when some typed parameter declares it (up to leading backslashes). */
  lemma {:induction false} TypeNamesMembers(ps: seq<Option<string>>, t: string)
    ensures t in TypeNames(ps) <==> exists i :: 0 <= i < |ps| && ps[i].Some? && t == LTrim(ps[i].value)
    decreases |ps|
  {
    if ps != [] {
      var ps' := ps[..|ps| - 1];
      TypeNamesMembers(ps', t);
      if exists i :: 0 <= i < |ps| && ps[i].Some? && t == LTrim(ps[i].value) {
        var i :| 0 <= i < |ps| && ps[i].Some? && t == LTrim(ps[i].value);
        if i < |ps| - 1 {
          assert ps'[i] == ps[i];
        }
      }
    }
  }

  // ---------------------------------------------------------------------------
  // The filter of `find`
  // ---------------------------------------------------------------------------

  /** A resolved name is reported when it is not virtual and not among the injected types. */
  predicate Keeps(name: string, isVirtual: string -> bool, injected: seq<string>) {
    !isVirtual(name) && name !in injected
  }

  /** The names that pass the filter, in their order, with their repetitions. */
  function Kept(names: seq<string>, isVirtual: string -> bool, injected: seq<string>): (kept: seq<string>)
    ensures |kept| <= |names|
    decreases |names|
  {
    if names == [] then []
    else
      var last := names[|names| - 1];
      Kept(names[..|names| - 1], isVirtual, injected) + (if Keeps(last, isVirtual, injected) then [last] else [])
  }

  predicate AllVirtual(names: seq<string>, isVirtual: string -> bool) {
    forall k :: 0 <= k < |names| ==> isVirtual(names[k])
  }

  /**
    What `find` returns for the resolved call-site names `names`, given the class name the
    extractor found: the constructor filter only applies when that name is truthy, and
    reflecting a class that cannot be loaded throws as soon as a non-virtual name reaches it.
   */
  function Reported(names: seq<string>, isVirtual: string -> bool, className: string, reflection: Reflection): Outcome {
    if !PhpTruthy(className) then Found(Kept(names, isVirtual, []))
    else match ConstructorArguments(reflection, className)
      case Some(arguments) => Found(Kept(names, isVirtual, arguments))
      case None => if AllVirtual(names, isVirtual) then Found([]) else ReflectionError(className)
  }

  /** The outcome of `find` on a file. */
  function FindReport(fileContent: string, extractor: ClassNameExtractor, isVirtual: string -> bool, reflection: Reflection): Outcome {
    Reported(ResolvedNames(fileContent, CallSiteNames(fileContent), extractor.getNamespace(fileContent)), isVirtual,
      extractor.getNameWithNamespace(fileContent), reflection)
  }

  /** `a` is `b` with some elements left out, the rest in their order. */
  predicate IsSubsequence(a: seq<string>, b: seq<string>)
    decreases |b|
  {
    a == [] ||
    (b != [] &&
      ((a[|a| - 1] == b[|b| - 1] && IsSubsequence(a[..|a| - 1], b[..|b| - 1])) || IsSubsequence(a, b[..|b| - 1])))
  }

  /** The filter's result for a concatenation is the concatenation of its results: match order is kept. */
  lemma {:induction false} KeptConcat(xs: seq<string>, ys: seq<string>, isVirtual: string -> bool, injected: seq<string>)
    ensures Kept(xs + ys, isVirtual, injected) == Kept(xs, isVirtual, injected) + Kept(ys, isVirtual, injected)
    decreases |ys|
  {
    if ys == [] {
      assert xs + ys == xs;
    } else {
      var ys' := ys[..|ys| - 1];
      assert (xs + ys)[..|xs + ys| - 1] == xs + ys';
      KeptConcat(xs, ys', isVirtual, injected);
    }
  }

  /** Each name that passes the filter is reported as often as it occurs; the others never. */
  lemma {:induction false} KeptMultiplicity(names: seq<string>, isVirtual: string -> bool, injected: seq<string>, x: string)
    ensures multiset(Kept(names, isVirtual, injected))[x] ==
      if Keeps(x, isVirtual, injected) then multiset(names)[x] else 0
    decreases |names|
  {
    if names != [] {
      var names' := names[..|names| - 1];
      assert names == names' + [names[|names| - 1]];
      KeptMultiplicity(names', isVirtual, injected, x);
    }
  }

  /** The reported names are a subsequence of the resolved names. */
  lemma {:induction false} KeptSubsequence(names: seq<string>, isVirtual: string -> bool, injected: seq<string>)
    ensures IsSubsequence(Kept(names, isVirtual, injected), names)
    decreases |names|
  {
    if names != [] {
      var names' := names[..|names| - 1];
      KeptSubsequence(names', isVirtual, injected);
      var kept' := Kept(names', isVirtual, injected);
      var last := names[|names| - 1];
      if Keeps(last, isVirtual, injected) {
        var kept := kept' + [last];
        assert kept[..|kept| - 1] == kept' && kept[|kept| - 1] == last;
        assert IsSubsequence(kept, names);
      } else {
        assert Kept(names, isVirtual, injected) == kept';
        assert IsSubsequence(kept', names);
      }
    }
  }

  /** A name occurs in the report exactly when it occurs among the resolved names and passes the filter. */
  lemma KeptMembers(names: seq<string>, isVirtual: string -> bool, injected: seq<string>, x: string)
    ensures x in Kept(names, isVirtual, injected) <==> x in names && Keeps(x, isVirtual, injected)
  {
    KeptMultiplicity(names, isVirtual, injected, x);
  }

  // ---------------------------------------------------------------------------
  // Properties of `find`
  // ---------------------------------------------------------------------------

  /** `find` throws exactly when the class name is truthy, its class cannot be loaded, and some name is not virtual. */
  lemma ReportedFails(names: seq<string>, isVirtual: string -> bool, className: string, reflection: Reflection)
    ensures Reported(names, isVirtual, className, reflection).ReflectionError? <==>
      PhpTruthy(className) && className !in reflection && !AllVirtual(names, isVirtual)
  {
  }

  /** No reported name is virtual, and with a truthy class name none is one of its constructor's argument types. */
  lemma ReportedFiltered(names: seq<string>, isVirtual: string -> bool, className: string, reflection: Reflection, x: string)
    requires Reported(names, isVirtual, className, reflection).Found?
    requires x in Reported(names, isVirtual, className, reflection).classNames
    ensures x in names && !isVirtual(x)
    ensures PhpTruthy(className) ==>
      ConstructorArguments(reflection, className).Some? && x !in ConstructorArguments(reflection, className).value
  {
    var args := if PhpTruthy(className) then ConstructorArguments(reflection, className) else Some([]);
    if args.Some? {
      KeptMembers(names, isVirtual, args.value, x);
    }
  }

  /**
    Without a truthy class name the constructor filter is skipped: every non-virtual name is
    reported, as often as it occurs.
   */
  lemma ReportedWithoutClassName(names: seq<string>, isVirtual: string -> bool, className: string, reflection: Reflection, x: string)
    requires !PhpTruthy(className)
    ensures Reported(names, isVirtual, className, reflection).Found?
    ensures multiset(Reported(names, isVirtual, className, reflection).classNames)[x] ==
      if isVirtual(x) then 0 else multiset(names)[x]
  {
    KeptMultiplicity(names, isVirtual, [], x);
  }

  /**
    The report keeps match order and does not remove duplicates: it is a subsequence of the
    resolved names, and a reported name appears exactly as often as it was matched.
   */
  lemma ReportedOrderAndDuplicates(names: seq<string>, isVirtual: string -> bool, className: string, reflection: Reflection, x: string)
    requires Reported(names, isVirtual, className, reflection).Found?
    ensures IsSubsequence(Reported(names, isVirtual, className, reflection).classNames, names)
    ensures x in Reported(names, isVirtual, className, reflection).classNames ==>
      multiset(Reported(names, isVirtual, className, reflection).classNames)[x] == multiset(names)[x]
  {
    var args := if PhpTruthy(className) then ConstructorArguments(reflection, className) else Some([]);
    if args.Some? {
      KeptSubsequence(names, isVirtual, args.value);
      KeptMultiplicity(names, isVirtual, args.value, x);
    }
  }

  /** Every reported name lacks a leading backslash, and a file without call sites reports nothing. */
  lemma FindReportShape(fileContent: string, extractor: ClassNameExtractor, isVirtual: string -> bool, reflection: Reflection)
    ensures FindReport(fileContent, extractor, isVirtual, reflection).Found? ==>
      forall x :: x in FindReport(fileContent, extractor, isVirtual, reflection).classNames ==> NoLeadingBackslash(x)
    ensures (forall i :: 0 <= i < |fileContent| ==> CallAt(fileContent, i).None?) ==>
      FindReport(fileContent, extractor, isVirtual, reflection) == Found([])
  {
    var names := ResolvedNames(fileContent, CallSiteNames(fileContent), extractor.getNamespace(fileContent));
    var className := extractor.getNameWithNamespace(fileContent);
    var r := FindReport(fileContent, extractor, isVirtual, reflection);
    if r.Found? {
      forall x | x in r.classNames ensures NoLeadingBackslash(x) {
        ReportedFiltered(names, isVirtual, className, reflection, x);
      }
    }
    NoCallSites(fileContent);
  }

  /** One more name processed by the loop of `find`: the outcome for the first `i + 1` names from the outcome for the first `i`. */
  lemma ReportedStep(names: seq<string>, i: nat, isVirtual: string -> bool, className: string, reflection: Reflection, found: seq<string>)
    requires i < |names|
    requires Reported(names[..i], isVirtual, className, reflection) == Found(found)
    ensures Reported(names[..i + 1], isVirtual, className, reflection) ==
      if isVirtual(names[i]) then Found(found)
      else if !PhpTruthy(className) then Found(found + [names[i]])
      else match ConstructorArguments(reflection, className)
        case None => ReflectionError(className)
        case Some(arguments) => if names[i] in arguments then Found(found) else Found(found + [names[i]])
  {
    var x := names[i];
    assert names[..i + 1] == names[..i] + [x];
    assert (names[..i] + [x])[..i] == names[..i];
    if !AllVirtual(names[..i], isVirtual) {
      assert !AllVirtual(names[..i] + [x], isVirtual) by {
        var k :| 0 <= k < i && !isVirtual(names[..i][k]);
        assert (names[..i] + [x])[k] == names[..i][k];
      }
    }
    if AllVirtual(names[..i], isVirtual) && isVirtual(x) {
      assert AllVirtual(names[..i] + [x], isVirtual);
    }
  }

  /** A name that is not virtual makes `find` throw when the class name is truthy and its class cannot be loaded. */
  lemma ReportedFailsAt(names: seq<string>, i: nat, isVirtual: string -> bool, className: string, reflection: Reflection)
    requires i < |names| && !isVirtual(names[i])
    requires PhpTruthy(className) && className !in reflection
    ensures Reported(names, isVirtual, className, reflection) == ReflectionError(className)
  {
    assert !AllVirtual(names, isVirtual);
  }

  // ---------------------------------------------------------------------------
  // The class
  // ---------------------------------------------------------------------------

  class AutogeneratedClassNotInConstructorFinder {
    const classNameExtractor: ClassNameExtractor

    constructor (classNameExtractor: ClassNameExtractor)
      ensures this.classNameExtractor == classNameExtractor
    {
      this.classNameExtractor := classNameExtractor;
    }

    /** The classes created through `get(X::class)` or `create(X::class)` that the file's class does not inject. */
    method Find(fileContent: string, isVirtual: string -> bool, reflection: Reflection) returns (r: Outcome)
      ensures r == FindReport(fileContent, classNameExtractor, isVirtual, reflection)
    {
      var classNames: seq<string> := [];
      var shortNameMatches := CallSiteNames(fileContent);
      var namespace := classNameExtractor.getNamespace(fileContent);
      ghost var names := ResolvedNames(fileContent, shortNameMatches, namespace);
      ghost var owner := classNameExtractor.getNameWithNamespace(fileContent);
      for i := 0 to |shortNameMatches|
        invariant Reported(names[..i], isVirtual, owner, reflection) == Found(classNames)
      {
        var shortName := shortNameMatches[i];
        var name := ResolveReference(fileContent, shortName, namespace);
        assert name == names[i] by {
          ResolvedNamesAt(fileContent, shortNameMatches, namespace, i);
        }

        if isVirtual(name) {
          ReportedStep(names, i, isVirtual, owner, reflection, classNames);
          continue;
        }

        var className := classNameExtractor.getNameWithNamespace(fileContent);
        if PhpTruthy(className) {
          var arguments := GetConstructorArguments(className, reflection);
          if arguments.None? {
            ReportedFailsAt(names, i, isVirtual, owner, reflection);
            return ReflectionError(className);
          }
          if name in arguments.value {
            ReportedStep(names, i, isVirtual, owner, reflection, classNames);
            continue;
          }
        }

        ReportedStep(names, i, isVirtual, owner, reflection, classNames);
        classNames := classNames + [name];
      }
      assert names[..|shortNameMatches|] == names;
      return Found(classNames);
    }

    /** The trimmed declared types of the typed constructor parameters of `className`. */
    method GetConstructorArguments(className: string, reflection: Reflection) returns (arguments: Option<seq<string>>)
      ensures arguments == ConstructorArguments(reflection, className)
      ensures arguments.Some? <==> className in reflection
      ensures arguments.Some? ==> forall k :: 0 <= k < |arguments.value| ==> NoLeadingBackslash(arguments.value[k])
    {
      if className !in reflection {
        return None;
      }
      var list: seq<string> := [];
      var reflected := reflection[className];
      if reflected.Some? {
        var classParameters := reflected.value;
        for i := 0 to |classParameters|
          invariant list == TypeNames(classParameters[..i])
        {
          assert classParameters[..i + 1][..i] == classParameters[..i];
          if classParameters[i].Some? {
            list := list + [LTrim(classParameters[i].value)];
          }
        }
        assert classParameters[..|classParameters|] == classParameters;
      }
      return Some(list);
    }
  }
}
