/** Which libraries are looked at, and which hooks are applied to them, in `xh_core.c`. */
module HookFilter {
  import opened CString
  import Hook

  /**
   A registered hook; a pattern tells which path names its regular expression matches. The last three are
   the new function and where the old one and the library's base are wanted.
   */
  datatype HookInfo = HookInfo(
    pattern: CStr -> bool, symbol: CStr, newFunc: nat, oldFunc: Hook.Cell?, cell: BaseCell?)

  /** A registered exclusion, of one symbol or of all. */
  datatype IgnoreInfo = IgnoreInfo(pattern: CStr -> bool, symbol: IgnoredSymbol)

  datatype IgnoredSymbol = AllSymbols | Only(name: CStr)

  /** Where a hook's caller wants the base address stored. */
  class BaseCell {
    var value: nat
  }

  predicate Excludes(ii: IgnoreInfo, path: CStr, symbol: CStr) {
    ii.pattern(path) && (ii.symbol.AllSymbols? || ii.symbol.name == symbol)
  }

  /** Some exclusion takes this symbol in this library out. */
  ghost predicate Excluded(ignores: seq<IgnoreInfo>, path: CStr, symbol: CStr) {
    exists j :: 0 <= j < |ignores| && Excludes(ignores[j], path, symbol)
  }

  /** Some exclusion takes the whole library out. */
  ghost predicate ExcludedWhole(ignores: seq<IgnoreInfo>, path: CStr) {
    exists j :: 0 <= j < |ignores| && ignores[j].pattern(path) && ignores[j].symbol.AllSymbols?
  }

  /** The first hook whose pattern matches; past the end if there is none. */
  function FirstMatch(hooks: seq<HookInfo>, path: CStr): (i: nat)
    ensures i <= |hooks|
  {
    if hooks == [] || hooks[0].pattern(path) then 0 else 1 + FirstMatch(hooks[1..], path)
  }

  lemma {:induction false} FirstMatchIsFirst(hooks: seq<HookInfo>, path: CStr, i: nat)
    requires i <= |hooks| && forall j :: 0 <= j < i ==> !hooks[j].pattern(path)
    requires i < |hooks| ==> hooks[i].pattern(path)
    ensures FirstMatch(hooks, path) == i
  {
    if i == 0 {
    } else {
      FirstMatchIsFirst(hooks[1..], path, i - 1);
    }
  }

  /** Refresh looks at a library when the first hook that matches it is not excluded there. */
  ghost predicate Admitted(hooks: seq<HookInfo>, ignores: seq<IgnoreInfo>, path: CStr) {
    var i := FirstMatch(hooks, path);
    i < |hooks| && !Excluded(ignores, path, hooks[i].symbol)
  }

  /** What the scan of the exclusions ends with. */
  datatype Verdict = NoneMatched | OneSymbol | WholeLibrary

  /** The inner loop over the exclusions: the first one that applies decides. */
  method ScanIgnores(ignores: seq<IgnoreInfo>, path: CStr, symbol: CStr) returns (v: Verdict)
    ensures v.NoneMatched? <==> !Excluded(ignores, path, symbol)
    ensures v.WholeLibrary? ==> ExcludedWhole(ignores, path)
  {
    var j := 0;
    while j < |ignores|
      invariant j <= |ignores| && forall k :: 0 <= k < j ==> !Excludes(ignores[k], path, symbol)
    {
      var ii := ignores[j];
      if ii.pattern(path) {
        if ii.symbol.AllSymbols? {
          return WholeLibrary;
        }
        StrcmpOrder(ii.symbol.name, symbol);
        if Strcmp(ii.symbol.name, symbol) == 0 {
          return OneSymbol;
        }
      }
      j := j + 1;
    }
    v := NoneMatched;
  }

  /** The search of xh_core_refresh_impl for a hook: only the first that matches is considered. */
  method FindHook(hooks: seq<HookInfo>, ignores: seq<IgnoreInfo>, path: CStr) returns (found: bool, i: nat)
    ensures found <==> Admitted(hooks, ignores, path)
    ensures found ==> i == FirstMatch(hooks, path) < |hooks|
  {
    found, i := false, 0;
    while i < |hooks|
      invariant i <= |hooks| && !found && forall k :: 0 <= k < i ==> !hooks[k].pattern(path)
    {
      if hooks[i].pattern(path) {
        FirstMatchIsFirst(hooks, path, i);
        var v := ScanIgnores(ignores, path, hooks[i].symbol);
        return v.NoneMatched?, i;
      }
      i := i + 1;
    }
    FirstMatchIsFirst(hooks, path, i);
  }

  // ---------- applying hooks ----------

  /** The hooks applied to a library: none if it is excluded whole, else those not excluded, in order. */
  ghost function Applied(hooks: seq<HookInfo>, ignores: seq<IgnoreInfo>, path: CStr, n: nat): seq<nat>
    requires n <= |hooks|
  {
    if n == 0 || ExcludedWhole(ignores, path) then []
    else
      var prior := Applied(hooks, ignores, path, n - 1);
      if hooks[n - 1].pattern(path) && !Excluded(ignores, path, hooks[n - 1].symbol) then prior + [n - 1] else prior
  }

  /** The loop of xh_core_hook_impl: which hooks reach xh_elf_hook. */
  method HookAll(hooks: seq<HookInfo>, ignores: seq<IgnoreInfo>, path: CStr) returns (applied: seq<nat>)
    ensures applied == Applied(hooks, ignores, path, |hooks|)
  {
    applied := [];
    var i := 0;
    while i < |hooks|
      invariant i <= |hooks| && applied == Applied(hooks, ignores, path, i)
    {
      if hooks[i].pattern(path) {
        var v := ScanIgnores(ignores, path, hooks[i].symbol);
        if v.WholeLibrary? {
          return;
        }
        if v.NoneMatched? {
          NotWhole(ignores, path, hooks[i].symbol);
          applied := applied + [i];
        }
      }
      i := i + 1;
    }
  }

  /** A library excluded whole has every symbol excluded. */
  lemma NotWhole(ignores: seq<IgnoreInfo>, path: CStr, symbol: CStr)
    ensures ExcludedWhole(ignores, path) ==> Excluded(ignores, path, symbol)
  {
    if ExcludedWhole(ignores, path) {
      var j :| 0 <= j < |ignores| && ignores[j].pattern(path) && ignores[j].symbol.AllSymbols?;
      assert Excludes(ignores[j], path, symbol);
    }
  }

  lemma {:induction false} AppliedIs(hooks: seq<HookInfo>, ignores: seq<IgnoreInfo>, path: CStr, n: nat, i: nat)
    requires n <= |hooks|
    ensures i in Applied(hooks, ignores, path, n) <==>
            i < n && hooks[i].pattern(path) && !Excluded(ignores, path, hooks[i].symbol)
  {
    if n == 0 {
    } else {
      AppliedIs(hooks, ignores, path, n - 1, i);
      if i < n {
        NotWhole(ignores, path, hooks[i].symbol);
      }
    }
  }

  /** Each at most once, in the order of registration. */
  lemma {:induction false} AppliedInOrder(hooks: seq<HookInfo>, ignores: seq<IgnoreInfo>, path: CStr, n: nat, i: nat,
                                          j: nat)
    requires n <= |hooks| && i < j < |Applied(hooks, ignores, path, n)|
    ensures Applied(hooks, ignores, path, n)[i] < Applied(hooks, ignores, path, n)[j]
  {
    var prior := Applied(hooks, ignores, path, n - 1);
    if j < |prior| {
      AppliedInOrder(hooks, ignores, path, n - 1, i, j);
    } else {
      assert prior[i] in prior;
      AppliedIs(hooks, ignores, path, n - 1, prior[i]);
    }
  }

  /** An exclusion takes a symbol out of the libraries its pattern matches, or all symbols. */
  lemma ExcludedMeans(ignores: seq<IgnoreInfo>, path: CStr, symbol: CStr)
    ensures !Excluded(ignores, path, symbol) <==>
      forall j :: 0 <= j < |ignores| && ignores[j].pattern(path) ==>
        ignores[j].symbol.Only? && ignores[j].symbol.name != symbol
  {
    forall j | 0 <= j < |ignores|
      ensures Excludes(ignores[j], path, symbol) <==>
              ignores[j].pattern(path) && (ignores[j].symbol.AllSymbols? || ignores[j].symbol.name == symbol)
    {
    }
  }

  /** The first hook whose pattern matches the path decides whether the library is looked at. */
  lemma AdmittedMeans(hooks: seq<HookInfo>, ignores: seq<IgnoreInfo>, path: CStr)
    ensures Admitted(hooks, ignores, path) <==>
      exists i :: 0 <= i < |hooks| && hooks[i].pattern(path) && (forall j :: 0 <= j < i ==> !hooks[j].pattern(path))
        && !Excluded(ignores, path, hooks[i].symbol)
  {
    forall i | 0 <= i < |hooks| && hooks[i].pattern(path) && forall j :: 0 <= j < i ==> !hooks[j].pattern(path)
      ensures FirstMatch(hooks, path) == i
    {
      FirstMatchIsFirst(hooks, path, i);
    }
    FirstIsLeast(hooks, path);
  }

  lemma {:induction false} FirstIsLeast(hooks: seq<HookInfo>, path: CStr)
    ensures var i := FirstMatch(hooks, path);
            (i < |hooks| ==> hooks[i].pattern(path)) && forall j :: 0 <= j < i ==> !hooks[j].pattern(path)
  {
    if hooks != [] && !hooks[0].pattern(path) {
      FirstIsLeast(hooks[1..], path);
      assert forall j :: 0 < j < |hooks| ==> hooks[j] == hooks[1..][j - 1];
    }
  }

  /** A library is looked at exactly when the first hook that matches it would be applied to it. */
  lemma AdmittedMeansFirstApplies(hooks: seq<HookInfo>, ignores: seq<IgnoreInfo>, path: CStr)
    ensures Admitted(hooks, ignores, path) <==>
            FirstMatch(hooks, path) in Applied(hooks, ignores, path, |hooks|)
  {
    var i := FirstMatch(hooks, path);
    AppliedIs(hooks, ignores, path, |hooks|, i);
    FirstIsLeast(hooks, path);
  }

  /** So a library can be passed over although a later hook would apply to it. */
  lemma PassedOver(path: CStr, a: CStr, b: CStr, f: nat)
    requires a != b
    ensures var hooks := [HookInfo(p => true, a, f, null, null), HookInfo(p => true, b, f, null, null)];
            var ignores := [IgnoreInfo(p => true, Only(a))];
            !Admitted(hooks, ignores, path) && 1 in Applied(hooks, ignores, path, 2)
  {
    var hooks := [HookInfo(p => true, a, f, null, null), HookInfo(p => true, b, f, null, null)];
    var ignores := [IgnoreInfo(p => true, Only(a))];
    assert Excludes(ignores[0], path, a);
    assert FirstMatch(hooks, path) == 0;
    AppliedIs(hooks, ignores, path, 2, 1);
  }
}
