/** The Python `str` operations the archive generator relies on, on strings as
    sequences of Unicode scalar values: whitespace stripping, splitting on one
    character, joining, searching, partitioning, replacing and padding. */
module PyText {
  import opened Wrappers

  /** The characters for which Python's `str.isspace()` holds, which are exactly
      the characters `str.strip()` removes: the characters of bidirectional
      class WS, B or S and those of general category Zs. Note that
      U+001C..U+001F (the ASCII information separators) are among them;
      `int()` does not skip those four (see `PyInt.IsIntSpace`). */
  predicate IsSpace(c: char) {
    if c <= ' ' then ('\t' <= c <= '\r') || ('\U{1C}' <= c)
    else if c < '\U{85}' then false
    else
      || c == '\U{85}' || c == '\U{A0}' || c == '\U{1680}'
      || ('\U{2000}' <= c <= '\U{200A}')
      || c == '\U{2028}' || c == '\U{2029}' || c == '\U{202F}' || c == '\U{205F}' || c == '\U{3000}'
  }

  /** Every character of `s` is whitespace. */
  predicate AllSpace(s: string) {
    forall k :: 0 <= k < |s| ==> IsSpace(s[k])
  }

  /** Neither end of `s` is whitespace: what `str.strip()` leaves. */
  predicate IsStripped(s: string) {
    s == [] || (!IsSpace(s[0]) && !IsSpace(s[|s| - 1]))
  }

  /** `s.lstrip()`: drops the leading whitespace and nothing else. */
  function StripLeft(s: string): (r: string)
    ensures |r| <= |s| && r == s[|s| - |r|..]
    ensures forall k :: 0 <= k < |s| - |r| ==> IsSpace(s[k])
    ensures r == [] || !IsSpace(r[0])
  {
    if |s| > 0 && IsSpace(s[0]) then StripLeft(s[1..]) else s
  }

  /** `s.rstrip()`: drops the trailing whitespace and nothing else. */
  function StripRight(s: string): (r: string)
    ensures |r| <= |s| && r == s[..|r|]
    ensures forall k :: |r| <= k < |s| ==> IsSpace(s[k])
    ensures r == [] || !IsSpace(r[|r| - 1])
  {
    if |s| > 0 && IsSpace(s[|s| - 1]) then StripRight(s[..|s| - 1]) else s
  }

  /** `s.strip()`: stripped, empty exactly when `s` is all whitespace, and `s`
      itself when `s` is already stripped. That it is the middle of `s` between
      leading and trailing whitespace is `StripMiddle`. */
  function Strip(s: string): (r: string)
    ensures IsStripped(r)
    ensures r == [] <==> forall k :: 0 <= k < |s| ==> IsSpace(s[k])
    ensures IsStripped(s) ==> r == s
  {
    var l := StripLeft(s);
    var r := StripRight(l);
    assert r != [] ==> r[0] == l[0];
    if r == [] then
      assert l == [];
      r
    else
      assert !IsSpace(s[|s| - |l|]);
      r
  }

  /** `s.strip()` is what lies between a run of leading and a run of trailing
      whitespace of `s`: it removes whitespace at the ends and nothing else. */
  lemma StripMiddle(s: string)
    ensures var r := Strip(s);
      exists i :: 0 <= i <= |s| - |r| && s == s[..i] + r + s[i + |r|..]
                  && AllSpace(s[..i]) && AllSpace(s[i + |r|..])
  {
    var l := StripLeft(s);
    var r := StripRight(l);
    assert AllSpace(s[..|s| - |l|]) && AllSpace(l[|r|..]);
    StripAround(s, l, r);
    var i := |s| - |l|;
    assert Strip(s) == r;
    assert 0 <= i <= |s| - |r| && s == s[..i] + r + s[i + |r|..]
           && AllSpace(s[..i]) && AllSpace(s[i + |r|..]);
  }

  /** The left and the right strip together leave `s` split into leading
      whitespace, the result, and trailing whitespace. */
  lemma StripAround(s: string, l: string, r: string)
    requires |l| <= |s| && l == s[|s| - |l|..] && AllSpace(s[..|s| - |l|])
    requires |r| <= |l| && r == l[..|r|] && AllSpace(l[|r|..])
    ensures var i := |s| - |l|;
      && 0 <= i <= |s| - |r| && s == s[..i] + r + s[i + |r|..]
      && AllSpace(s[..i]) && AllSpace(s[i + |r|..])
  {
    var i := |s| - |l|;
    assert s == s[..i] + l;
    assert l == r + l[|r|..];
    assert l[|r|..] == s[i + |r|..];
  }

  /** `s.strip()` only removes characters: what is left occurs in `s`. */
  lemma StripKeepsChars(s: string)
    ensures |Strip(s)| <= |s|
    ensures forall c :: c in Strip(s) ==> c in s
  {
    var l := StripLeft(s);
    var r := StripRight(l);
    assert forall c :: c in r ==> c in l;
    assert forall c :: c in l ==> c in s;
  }

  /** `s.startswith(p)`. */
  predicate StartsWith(s: string, p: string) {
    |p| <= |s| && s[..|p|] == p
  }

  /** `sub` occurs in `s` at index `i`. */
  predicate OccursAt(s: string, sub: string, i: nat) {
    i + |sub| <= |s| && s[i..i + |sub|] == sub
  }

  /** A one-character string occurs exactly where that character stands. */
  lemma OccursAtChar(s: string, c: char, k: nat)
    requires k < |s|
    ensures OccursAt(s, [c], k) <==> s[k] == c
  {
    assert s[k..k + 1] == [s[k]];
  }

  /** `s.find(sub, from)`: the least index at or after `from` where `sub` occurs. */
  function FindFrom(s: string, sub: string, from: nat): (r: Option<nat>)
    decreases |s| - from
    ensures r.Some? ==> from <= r.value && OccursAt(s, sub, r.value)
    ensures r.Some? ==> forall k :: from <= k < r.value ==> !OccursAt(s, sub, k)
    ensures r.None? ==> forall k: nat :: from <= k ==> !OccursAt(s, sub, k)
  {
    if from + |sub| > |s| then None
    else if s[from..from + |sub|] == sub then Some(from)
    else FindFrom(s, sub, from + 1)
  }

  /** The three parts of `s.partition(sep)`. */
  datatype Parts = Parts(head: string, sep: string, tail: string)

  /** `s.partition(sep)`; `None` stands for the `ValueError` Python raises for an
      empty separator. The parts always concatenate to `s`; the separator is
      found at its first occurrence, and when there is none the whole of `s`
      is the head. */
  function Partition(s: string, sep: string): (r: Option<Parts>)
    ensures r.Some? <==> sep != []
    ensures r.Some? ==> r.value.head + r.value.sep + r.value.tail == s
    ensures r.Some? ==> forall k :: 0 <= k < |r.value.head| ==> !OccursAt(s, sep, k)
    ensures r.Some? && r.value.sep == [] ==> r.value.tail == [] && forall k: nat :: !OccursAt(s, sep, k)
    ensures r.Some? ==> r.value.sep == [] || r.value.sep == sep
  {
    if sep == [] then None
    else
      match FindFrom(s, sep, 0)
      case None => Some(Parts(s, [], []))
      case Some(i) =>
        assert s == s[..i] + sep + s[i + |sep|..];
        Some(Parts(s[..i], sep, s[i + |sep|..]))
  }

  /** The separator-free pieces that `sep.join` glues back together. */
  function Join(ts: seq<string>, sep: char): string {
    if |ts| == 0 then []
    else if |ts| == 1 then ts[0]
    else ts[0] + [sep] + Join(ts[1..], sep)
  }

  /** `s.split(sep)` for a one-character separator: at least one piece, no piece
      contains the separator, and joining the pieces with it gives back `s`. */
  function Split(s: string, sep: char): (r: seq<string>)
    ensures |r| >= 1
    ensures forall k :: 0 <= k < |r| ==> sep !in r[k]
    ensures Join(r, sep) == s
  {
    if s == [] then [[]]
    else
      var rest := Split(s[1..], sep);
      if s[0] == sep then
        assert s == [sep] + s[1..];
        [[]] + rest
      else
        var r := [[s[0]] + rest[0]] + rest[1..];
        assert r[1..] == rest[1..];
        assert s == [s[0]] + s[1..];
        r
  }

  /** The first piece of a join is the text before its first separator. */
  lemma JoinHead(a: seq<string>, sep: char)
    requires |a| >= 1
    requires forall k :: 0 <= k < |a| ==> sep !in a[k]
    ensures |a[0]| <= |Join(a, sep)| && Join(a, sep)[..|a[0]|] == a[0]
    ensures forall k :: 0 <= k < |a[0]| ==> Join(a, sep)[k] != sep
    ensures |a| == 1 ==> sep !in Join(a, sep)
    ensures |a| >= 2 ==> |a[0]| < |Join(a, sep)| && Join(a, sep)[|a[0]|] == sep
    ensures |a| >= 2 ==> Join(a, sep)[|a[0]| + 1..] == Join(a[1..], sep)
  {
  }

  /** Two sequences of separator-free pieces that join to the same string are
      the same sequence. */
  lemma {:induction false} JoinInjective(a: seq<string>, b: seq<string>, sep: char)
    requires |a| >= 1 && |b| >= 1
    requires forall k :: 0 <= k < |a| ==> sep !in a[k]
    requires forall k :: 0 <= k < |b| ==> sep !in b[k]
    requires Join(a, sep) == Join(b, sep)
    ensures a == b
  {
    JoinHead(a, sep);
    JoinHead(b, sep);
    if |a| == 1 && |b| == 1 {
    } else if |a| == 1 || |b| == 1 {
      assert false;
    } else if |a[0]| != |b[0]| {
      assert false;
    } else {
      JoinInjective(a[1..], b[1..], sep);
      assert a == [a[0]] + a[1..];
      assert b == [b[0]] + b[1..];
    }
  }

  /** Splitting undoes joining: `sep.join(ts).split(sep) == ts` whenever no
      piece contains the separator. */
  lemma SplitJoin(ts: seq<string>, sep: char)
    requires |ts| >= 1
    requires forall k :: 0 <= k < |ts| ==> sep !in ts[k]
    ensures Split(Join(ts, sep), sep) == ts
  {
    JoinInjective(Split(Join(ts, sep), sep), ts, sep);
  }

  /** Three separator-free pieces joined by the separator split back into
      exactly those pieces. */
  lemma SplitThree(a: string, b: string, c: string, sep: char)
    requires sep !in a && sep !in b && sep !in c
    ensures Split(a + [sep] + b + [sep] + c, sep) == [a, b, c]
  {
    JoinThree(a, b, c, sep);
    SplitJoin([a, b, c], sep);
  }

  lemma JoinThree(a: string, b: string, c: string, sep: char)
    ensures Join([a, b, c], sep) == a + [sep] + b + [sep] + c
  {
    var ts := [a, b, c];
    assert ts[1..] == [b, c] && [b, c][1..] == [c];
    assert Join([b, c], sep) == b + [sep] + c;
    assert Join(ts, sep) == a + [sep] + (b + [sep] + c);
    assert a + [sep] + (b + [sep] + c) == a + [sep] + b + [sep] + c;
  }

  /** A string splits into more than one piece exactly when it contains the
      separator; otherwise the only piece is the string itself. */
  lemma SplitCount(s: string, sep: char)
    ensures |Split(s, sep)| >= 2 <==> sep in s
    ensures sep !in s ==> Split(s, sep) == [s]
  {
    var r := Split(s, sep);
    if sep !in s {
      JoinInjective(r, [s], sep);
    } else if |r| == 1 {
      assert false;
    }
  }

  /** `s.replace(from, to)` for one-character `from` and `to`: every occurrence
      of `from` becomes `to` and every other character stays where it is. */
  function ReplaceChar(s: string, from: char, to: char): (r: string)
    ensures |r| == |s|
    ensures forall k :: 0 <= k < |s| ==> r[k] == if s[k] == from then to else s[k]
  {
    if s == [] then []
    else [if s[0] == from then to else s[0]] + ReplaceChar(s[1..], from, to)
  }

  /** `s.replace(c, '')`: every occurrence of `c` is deleted, every other
      character is kept, as often as it occurs in `s`. */
  function RemoveChar(s: string, c: char): (r: string)
    ensures c !in r
    ensures |r| <= |s|
    ensures multiset(r) == multiset(s)[c := 0]
    ensures c !in s ==> r == s
  {
    if s == [] then []
    else
      assert s == [s[0]] + s[1..];
      if s[0] == c then RemoveChar(s[1..], c) else [s[0]] + RemoveChar(s[1..], c)
  }

  /** Deleting a character works piecewise, so it keeps the order of what remains. */
  lemma {:induction false} RemoveCharConcat(a: string, b: string, c: char)
    ensures RemoveChar(a + b, c) == RemoveChar(a, c) + RemoveChar(b, c)
  {
    if a != [] {
      assert (a + b)[1..] == a[1..] + b;
      RemoveCharConcat(a[1..], b, c);
    } else {
      assert a + b == b;
    }
  }

  /** Deleting a character other than the ends of `s` leaves both ends in place. */
  lemma RemoveCharKeepsEnds(s: string, c: char)
    requires s != [] && s[0] != c && s[|s| - 1] != c
    ensures var r := RemoveChar(s, c); r != [] && r[0] == s[0] && r[|r| - 1] == s[|s| - 1]
  {
    var n := |s| - 1;
    assert s == s[..n] + [s[n]];
    RemoveCharConcat(s[..n], [s[n]], c);
    assert RemoveChar([s[n]], c) == [s[n]];
  }

  /** Deleting a whitespace character from a stripped string leaves it stripped:
      both of its ends are non-whitespace, so neither is the deleted character. */
  lemma RemoveSpaceKeepsStripped(s: string, c: char)
    requires IsStripped(s) && IsSpace(c)
    ensures IsStripped(RemoveChar(s, c))
    ensures RemoveChar(s, c) == [] <==> s == []
  {
    if s != [] {
      RemoveCharKeepsEnds(s, c);
    }
  }

  /** `s.rjust(width, fill)`: `s` preceded by as many copies of `fill` as it takes
      to reach `width` characters. */
  function RJust(s: string, width: nat, fill: char): (r: string)
    ensures |r| == if |s| >= width then |s| else width
    ensures r[|r| - |s|..] == s
    ensures forall k :: 0 <= k < |r| - |s| ==> r[k] == fill
  {
    if |s| >= width then s else seq(width - |s|, _ => fill) + s
  }

  /** `s[:n]` for a non-negative `n`: the first `n` characters, or all of `s`
      when it is shorter. */
  function Take(s: string, n: nat): (r: string)
    ensures |r| == if |s| <= n then |s| else n
    ensures StartsWith(s, r)
  {
    if |s| <= n then s else s[..n]
  }
}
