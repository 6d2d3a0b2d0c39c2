/** Optional values and the small sequence helpers the rest of the model shares. */
module Wrappers {

  /** A value that may be absent, standing for the scripts' `null` results. */
  datatype Option<+T> = None | Some(value: T)

  /** The present values of `s`, in order (what a loop with `continue` on a
      missing value collects). */
  function Somes<T>(s: seq<Option<T>>): (r: seq<T>)
    ensures |r| <= |s|
  {
    if s == [] then []
    else
      var init := Somes(s[..|s| - 1]);
      match s[|s| - 1]
      case None => init
      case Some(v) => init + [v]
  }

  /** Concatenation of a sequence of sequences, in order. */
  function Flatten<T>(ss: seq<seq<T>>): (r: seq<T>)
    ensures |r| == SumLengths(ss)
  {
    if ss == [] then [] else Flatten(ss[..|ss| - 1]) + ss[|ss| - 1]
  }

  /** The total number of elements of a sequence of sequences. */
  function SumLengths<T>(ss: seq<seq<T>>): nat {
    if ss == [] then 0 else SumLengths(ss[..|ss| - 1]) + |ss[|ss| - 1]|
  }

  /** Every present value comes from an element of `s`. */
  lemma {:induction false} SomesMember<T>(s: seq<Option<T>>, x: T)
    requires x in Somes(s)
    ensures exists i :: 0 <= i < |s| && s[i] == Some(x)
  {
    var init := s[..|s| - 1];
    if x in Somes(init) {
      SomesMember(init, x);
      var i :| 0 <= i < |init| && init[i] == Some(x);
      assert s[i] == Some(x);
    } else {
      assert s[|s| - 1] == Some(x);
    }
  }

  /** Extending the prefix by one element extends the present values by it,
      if it is present. */
  lemma SomesStep<T>(s: seq<Option<T>>, i: int)
    requires 0 <= i < |s|
    ensures Somes(s[..i + 1]) == Somes(s[..i]) + (if s[i].Some? then [s[i].value] else [])
  {
    assert s[..i + 1][..i] == s[..i];
  }

  /** Extending the prefix by one part appends that part. */
  lemma FlattenStep<T>(ss: seq<seq<T>>, i: int)
    requires 0 <= i < |ss|
    ensures Flatten(ss[..i + 1]) == Flatten(ss[..i]) + ss[i]
  {
    assert ss[..i + 1][..i] == ss[..i];
  }

  /** Every element of a flattened sequence comes from one of the parts. */
  lemma {:induction false} FlattenMember<T>(ss: seq<seq<T>>, x: T)
    requires x in Flatten(ss)
    ensures exists i :: 0 <= i < |ss| && x in ss[i]
  {
    var init := ss[..|ss| - 1];
    if x in Flatten(init) {
      FlattenMember(init, x);
      var i :| 0 <= i < |init| && x in init[i];
      assert x in ss[i];
    } else {
      assert x in ss[|ss| - 1];
    }
  }
}
