/**
 * GetOptions (CombBLAS/MaximumMatching/BPMaximumMatching.cpp:374-396): the
 * command-line arguments are concatenated into one string, and each
 * option is recognised by a keyword occurring anywhere in it.
 */
module Options {

  /** The initialisation choices the driver knows (GREEDY, KARP_SIPSER, DMD, NO_INIT). */
  datatype Init = NoInit | Greedy | KarpSipser | Dmd

  /** `p` occurs in `s` at position i. */
  predicate At(s: string, p: string, i: int)
    requires 0 <= i <= |s| - |p|
  {
    s[i..i + |p|] == p
  }

  /** `p` occurs in `s` at some position. */
  ghost predicate Occurs(p: string, s: string)
  {
    exists i | 0 <= i <= |s| - |p| :: At(s, p, i)
  }

  /** `allArg.find(p) != string::npos`, searching from position `from` onwards. */
  function Contains(s: string, p: string, from: nat): (b: bool)
    requires from <= |s|
    decreases |s| - from
  {
    if from + |p| > |s| then false
    else if At(s, p, from) then true
    else Contains(s, p, from + 1)
  }

  /** The search finds `p` exactly when it occurs at or after `from`. */
  lemma {:induction false} ContainsFinds(s: string, p: string, from: nat)
    requires from <= |s|
    ensures Contains(s, p, from) <==> exists i | from <= i <= |s| - |p| :: At(s, p, i)
    decreases |s| - from
  {
    if from + |p| <= |s| && !At(s, p, from) {
      ContainsFinds(s, p, from + 1);
      if exists i | from <= i <= |s| - |p| :: At(s, p, i) {
        var i :| from <= i <= |s| - |p| && At(s, p, i);
        assert i != from;
      }
    }
  }

  /** The concatenation of all arguments. */
  function Concat(args: seq<string>): string
  {
    if args == [] then "" else Concat(args[..|args| - 1]) + args[|args| - 1]
  }

  /** Init keyword priority: "greedy", else "ks", else "dmd", else none. */
  ghost function InitFor(allArg: string): Init
  {
    if Occurs("greedy", allArg) then Greedy
    else if Occurs("ks", allArg) then KarpSipser
    else if Occurs("dmd", allArg) then Dmd
    else NoInit
  }

  /**
   * GetOptions: a flag already set stays set, a flag is set when its
   * keyword occurs in the concatenated arguments, and `init` is always
   * overwritten by the keyword of highest priority.
   */
  method GetOptions(argv: seq<string>, diropt: bool, prune: bool, graft: bool)
      returns (init': Init, diropt': bool, prune': bool, graft': bool)
    ensures diropt' == (diropt || Occurs("diropt", Concat(argv)))
    ensures prune' == (prune || Occurs("prune", Concat(argv)))
    ensures graft' == (graft || Occurs("graft", Concat(argv)))
    ensures init' == InitFor(Concat(argv))
  {
    var allArg := "";
    for i := 0 to |argv|
      invariant allArg == Concat(argv[..i])
    {
      assert argv[..i + 1][..i] == argv[..i];
      allArg := allArg + argv[i];
    }
    assert argv[..|argv|] == argv;
    ContainsFinds(allArg, "diropt", 0);
    ContainsFinds(allArg, "prune", 0);
    ContainsFinds(allArg, "graft", 0);
    ContainsFinds(allArg, "greedy", 0);
    ContainsFinds(allArg, "ks", 0);
    ContainsFinds(allArg, "dmd", 0);
    diropt', prune', graft' := diropt, prune, graft;
    if Contains(allArg, "diropt", 0) {
      diropt' := true;
    }
    if Contains(allArg, "prune", 0) {
      prune' := true;
    }
    if Contains(allArg, "graft", 0) {
      graft' := true;
    }
    if Contains(allArg, "greedy", 0) {
      init' := Greedy;
    } else if Contains(allArg, "ks", 0) {
      init' := KarpSipser;
    } else if Contains(allArg, "dmd", 0) {
      init' := Dmd;
    } else {
      init' := NoInit;
    }
  }

  /** A keyword inside one argument is found: e.g. "ks" in ["input", "cage12.mtx", "ks"]. */
  lemma KeywordInLastArgument(args: seq<string>, p: string)
    requires |args| > 0 && args[|args| - 1] == p
    ensures Occurs(p, Concat(args))
  {
    var s := Concat(args);
    var i := |s| - |p|;
    assert At(s, p, i);
  }

  /** Keywords also match across argument boundaries, since the arguments are joined without separators. */
  lemma KeywordAcrossArguments()
    ensures Occurs("ks", Concat(["k", "s"]))
  {
    var args := ["k", "s"];
    assert args[..1] == ["k"] && ["k"][..0] == [];
    assert Concat(args) == "ks";
    assert At(Concat(args), "ks", 0);
  }
}
