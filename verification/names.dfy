/** Histogram names in the archive. A surface for neutrino energy E is stored
    under "v" followed by E printed with one decimal, with the first '.' of
    that text turned into '_' ("v12.5" is stored as "v12_5"). The printing
    itself (`%.1f`) is an input here: names are built from the printed text. */
module Names {

  import opened Numerics

  /** Position of the first `c` in `s`, or None when there is none. */
  function FindChar(s: string, c: char): (r: Option<nat>)
    ensures r.None? <==> c !in s
    ensures r.Some? ==> r.value < |s| && s[r.value] == c
    ensures r.Some? ==> forall k :: 0 <= k < r.value ==> s[k] != c
  {
    if |s| == 0 then None
    else if s[0] == c then Some(0)
    else
      match FindChar(s[1..], c)
      case None =>
        assert forall k :: 1 <= k < |s| ==> s[k] == s[1..][k - 1];
        None
      case Some(p) =>
        assert forall k :: 1 <= k <= p ==> s[k] == s[1..][k - 1];
        Some(p + 1)
  }

  /** The archive name for printed energy text `printed`; None when the text
      has no '.', where the replacement would have nothing to replace. */
  function HistName(printed: string): (r: Option<string>)
    ensures r.None? <==> '.' !in printed
    ensures r.Some? ==> |r.value| == |printed| + 1 && r.value[0] == 'v'
    ensures r.Some? ==> '_' in r.value
    ensures r.Some? ==> exists q :: 0 <= q < |printed| && printed[q] == '.' && '.' !in printed[..q]
                                  && r.value == "v" + printed[..q] + "_" + printed[q + 1..]
  {
    var s := "v" + printed;
    assert '.' in printed ==> '.' in s by {
      if '.' in printed {
        var k :| 0 <= k < |printed| && printed[k] == '.';
        assert s[k + 1] == '.';
      }
    }
    assert '.' in s ==> '.' in printed by {
      if '.' in s {
        var k :| 0 <= k < |s| && s[k] == '.';
        assert printed[k - 1] == '.';
      }
    }
    match FindChar(s, '.')
    case None => None
    case Some(p) =>
      var name := s[..p] + "_" + s[p + 1..];
      assert name[p] == '_';
      var q := p - 1;
      assert s[..p] == "v" + printed[..q];
      assert s[p + 1..] == printed[q + 1..];
      assert printed[q] == '.';
      assert forall k :: 0 <= k < q ==> printed[..q][k] == s[k + 1];
      Some(name)
  }

  /** Back from an archive name to the printed text: drop the leading 'v' and
      turn the first '_' into '.'. */
  function Unname(name: string): (r: Option<string>)
    ensures r.Some? ==> |r.value| + 1 == |name| && '.' in r.value
  {
    if |name| == 0 || name[0] != 'v' then None
    else
      var t := name[1..];
      match FindChar(t, '_')
      case None => None
      case Some(p) =>
        var printed := t[..p] + "." + t[p + 1..];
        assert printed[p] == '.';
        Some(printed)
  }

  /** The first `c` is where FindChar says it is: a position holding `c`
      with no `c` before it is the answer. */
  lemma {:induction false} FindCharFirst(s: string, c: char, p: nat)
    requires p < |s| && s[p] == c
    requires forall k :: 0 <= k < p ==> s[k] != c
    ensures FindChar(s, c) == Some(p)
  {
    if p > 0 {
      assert s[0] != c;
      FindCharFirst(s[1..], c, p - 1);
    }
  }

  lemma SplitAround(s: string, k: int)
    requires 0 <= k < |s|
    ensures s == s[..k] + [s[k]] + s[k + 1..]
  {
    assert s[..k] + [s[k]] == s[..k + 1];
    assert s[..k + 1] + s[k + 1..] == s;
  }

  /** Printed text that has a '.' and no '_' (as every `%.1f` output does)
      is recovered from its name. */
  lemma UnnameOfHistName(printed: string)
    requires '.' in printed && '_' !in printed
    ensures HistName(printed).Some?
    ensures Unname(HistName(printed).value) == Some(printed)
  {
    var s := "v" + printed;
    var p := FindChar(s, '.').value;
    assert p >= 1;
    var q := p - 1;
    var name := HistName(printed).value;
    assert name == s[..p] + "_" + s[p + 1..];
    var t := name[1..];
    assert t == printed[..q] + "_" + printed[q + 1..] by {
      assert s[..p] == "v" + printed[..q];
      assert s[p + 1..] == printed[q + 1..];
    }
    assert printed[q] == s[p] == '.';
    assert forall k :: 0 <= k < q ==> t[k] == printed[k];
    FindCharFirst(t, '_', q);
    assert t[..q] == printed[..q];
    assert t[q + 1..] == printed[q + 1..];
    SplitAround(printed, q);
  }

  /** Two such texts never share a name. */
  lemma HistNameInjective(a: string, b: string)
    requires '.' in a && '_' !in a
    requires '.' in b && '_' !in b
    requires HistName(a) == HistName(b)
    ensures a == b
  {
    UnnameOfHistName(a);
    UnnameOfHistName(b);
  }

  lemma HistNameExample()
    ensures HistName("12.5") == Some("v12_5")
  {
    assert "v" + "12.5" == "v12.5";
    FindCharFirst("v12.5", '.', 3);
    assert ("v12.5")[..3] + "_" + ("v12.5")[4..] == "v12_5";
  }

  lemma UnnameExample()
    ensures Unname("v12_5") == Some("12.5")
  {
    assert ("v12_5")[1..] == "12_5";
    FindCharFirst("12_5", '_', 2);
    assert ("12_5")[..2] + "." + ("12_5")[3..] == "12.5";
  }
}
