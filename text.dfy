/** Whitespace trimming of record fields (`trim` in HT_ca5.cpp). */
module Text {
  import opened Wrappers

  /** Every character of `s` is an ASCII space (vacuously true of ""). */
  predicate AllSpaces(s: string)
  {
    forall i :: 0 <= i < |s| ==> s[i] == ' '
  }

  /** `s.find_first_not_of(' ')`: the index of the first non-space
      character, `None` standing for `npos`. */
  function FindFirstNotSpace(s: string): (r: Option<nat>)
    ensures r.None? <==> AllSpaces(s)
    ensures r.Some? ==> r.value < |s| && s[r.value] != ' ' && AllSpaces(s[..r.value])
  {
    if s == [] then None
    else if s[0] != ' ' then Some(0)
    else match FindFirstNotSpace(s[1..])
      case None => None
      case Some(k) =>
        assert s[..k + 1] == [s[0]] + s[1..][..k];
        Some(k + 1)
  }

  /** `s.find_last_not_of(' ')`: the index of the last non-space
      character, `None` standing for `npos`. */
  function FindLastNotSpace(s: string): (r: Option<nat>)
    ensures r.None? <==> AllSpaces(s)
    ensures r.Some? ==> r.value < |s| && s[r.value] != ' ' && AllSpaces(s[r.value + 1..])
  {
    if s == [] then None
    else if s[|s| - 1] != ' ' then Some(|s| - 1)
    else
      var r := FindLastNotSpace(s[..|s| - 1]);
      assert r.Some? ==> s[r.value + 1..] == s[..|s| - 1][r.value + 1..] + [' '];
      r
  }

  /** The non-space at `first` and the one at `last`, with only spaces
      before the first and after the last, bound a non-empty span that `s`
      surrounds with those spaces. */
  lemma SpanBetween(s: string, first: nat, last: nat)
    requires first < |s| && s[first] != ' ' && AllSpaces(s[..first])
    requires last < |s| && s[last] != ' ' && AllSpaces(s[last + 1..])
    ensures first <= last
    ensures s == s[..first] + s[first .. last + 1] + s[last + 1..]
  {
    assert forall j :: last < j < |s| ==> s[j] == ' ' by {
      forall j | last < j < |s| ensures s[j] == ' ' {
        assert s[last + 1..][j - last - 1] == s[j];
      }
    }
  }

  /** `trim`: strips the leading and trailing ASCII spaces of `s`. A string
      of spaces only (the empty string included) is returned as it is,
      because the source returns `str` when `find_first_not_of` yields
      `npos`. Otherwise `s` is the result surrounded by spaces, and the
      result neither starts nor ends with a space. */
  function Trim(s: string): (r: string)
    ensures AllSpaces(s) ==> r == s
    ensures !AllSpaces(s) ==>
      |r| > 0 && r[0] != ' ' && r[|r| - 1] != ' ' &&
      exists lead, trail :: AllSpaces(lead) && AllSpaces(trail) && s == lead + r + trail
  {
    match FindFirstNotSpace(s)
    case None => s
    case Some(first) =>
      var last := FindLastNotSpace(s).value;
      SpanBetween(s, first, last);
      // substr(first, last - first + 1)
      s[first .. first + (last - first + 1)]
  }

  /** Trimming twice is trimming once. */
  lemma TrimIdempotent(s: string)
    ensures Trim(Trim(s)) == Trim(s)
  {
    var r := Trim(s);
    if !AllSpaces(s) {
      assert FindFirstNotSpace(r) == Some(0);
      assert FindLastNotSpace(r) == Some(|r| - 1);
      assert r[0 .. |r|] == r;
    }
  }
}
