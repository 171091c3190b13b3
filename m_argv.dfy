/**
 * The argument manager: lookups over the program's parsed command line. The
 * global `argv`/`argc` pair becomes the parameter `argv`, whose length is argc;
 * argv[0] is the program name and is never matched.
 */
module ArgV {

  /** The first index i >= from (and >= 1) with argv[i] == arg, or |argv| if there is none. */
  function FirstMatch(argv: seq<string>, arg: string, from: nat): (r: nat)
    requires 1 <= from <= |argv|
    ensures from <= r <= |argv|
    ensures r < |argv| ==> argv[r] == arg
    ensures forall j :: from <= j < r ==> argv[j] != arg
    decreases |argv| - from
  {
    if from == |argv| then from
    else if argv[from] == arg then from
    else FirstMatch(argv, arg, from + 1)
  }

  /** M_FindArgument: whether arg occurs among argv[1..]. */
  method FindArgument(argv: seq<string>, arg: string) returns (found: bool)
    ensures found <==> exists i :: 1 <= i < |argv| && argv[i] == arg
  {
    var i := 1;
    while i < |argv|
      invariant 1 <= i
      invariant forall j :: 1 <= j < i && j < |argv| ==> argv[j] != arg
    {
      if argv[i] == arg {
        return true;
      }
      i := i + 1;
    }
    return false;
  }

  /**
   * M_GetArgParameter: the index of the first parameter after the first occurrence
   * of arg, when `count` parameters fit after it; 0 otherwise.
   */
  method GetArgParameter(argv: seq<string>, arg: string, count: int) returns (p: int)
    ensures |argv| <= 1 ==> p == 0
    ensures |argv| > 1 ==>
      var i := FirstMatch(argv, arg, 1);
      p == if i < |argv| && i < |argv| - count then i + 1 else 0
    ensures p != 0 ==> 2 <= p && p + count - 1 <= |argv| - 1 && argv[p - 1] == arg
    ensures p != 0 ==> forall j :: 1 <= j < p - 1 ==> argv[j] != arg
    ensures (forall i :: 1 <= i < |argv| ==> argv[i] != arg) ==> p == 0
  {
    var i := 1;
    while i < |argv|
      invariant 1 <= i && (|argv| > 1 ==> i <= |argv|)
      invariant |argv| > 1 ==> FirstMatch(argv, arg, 1) == FirstMatch(argv, arg, i)
    {
      if argv[i] == arg {
        if i < |argv| - count {
          return i + 1;
        } else {
          return 0;
        }
      }
      i := i + 1;
    }
    return 0;
  }

  /** Only the first occurrence counts: a later one never rescues an option too close to the end. */
  lemma ArgParameterFirstOccurrence(argv: seq<string>, arg: string, i: nat)
    requires 1 <= i < |argv| && argv[i] == arg
    requires forall j :: 1 <= j < i ==> argv[j] != arg
    ensures FirstMatch(argv, arg, 1) == i
  {
    FirstMatchFrom(argv, arg, 1, i);
  }

  lemma {:induction false} FirstMatchFrom(argv: seq<string>, arg: string, from: nat, i: nat)
    requires 1 <= from <= i < |argv| && argv[i] == arg
    requires forall j :: from <= j < i ==> argv[j] != arg
    ensures FirstMatch(argv, arg, from) == i
    decreases i - from
  {
    if from < i {
      FirstMatchFrom(argv, arg, from + 1, i);
    }
  }
}
