/**
 The text half of the Fair Value cleaning step: Python's `str.strip()` with no
 argument, the literal removal of every `+`, and their composition in the order
 the dashboard applies them (strip first, then remove).
 */
module Text {

  /** The characters Python's `str.isspace()` accepts, which are the ones
      `str.strip()` removes from both ends of a text. */
  predicate IsSpace(c: char) {
    c == ' ' || c == '\t' || c == '\n' || c == '\r' || c == '\U{0B}' || c == '\U{0C}'
    || ('\U{1C}' <= c <= '\U{1F}') || c == '\U{85}' || c == '\U{A0}' || c == '\U{1680}'
    || ('\U{2000}' <= c <= '\U{200A}') || c == '\U{2028}' || c == '\U{2029}'
    || c == '\U{202F}' || c == '\U{205F}' || c == '\U{3000}'
  }

  /** No whitespace at either end. */
  predicate Stripped(s: string) {
    s == [] || (!IsSpace(s[0]) && !IsSpace(s[|s| - 1]))
  }

  /** Drops the leading whitespace: the result is a suffix of `s` that does
      not start with whitespace. */
  function TrimStart(s: string): (r: string)
    ensures |r| <= |s|
    ensures r == [] || !IsSpace(r[0])
  {
    if |s| > 0 && IsSpace(s[0]) then TrimStart(s[1..]) else s
  }

  /** Drops the trailing whitespace: the result is a prefix of `s` that does
      not end with whitespace. */
  function TrimEnd(s: string): (r: string)
    ensures |r| <= |s| && r == s[..|r|]
    ensures r == [] || !IsSpace(r[|r| - 1])
  {
    if |s| > 0 && IsSpace(s[|s| - 1]) then TrimEnd(s[..|s| - 1]) else s
  }

  /** `TrimStart` keeps a suffix of `s` (all of it when nothing is dropped),
      and everything it drops is whitespace. */
  lemma {:induction false} TrimStartDropsSpace(s: string)
    ensures |TrimStart(s)| == |s| ==> TrimStart(s) == s
    ensures |TrimStart(s)| < |s| ==> TrimStart(s) == s[|s| - |TrimStart(s)|..]
    ensures forall i :: 0 <= i < |s| - |TrimStart(s)| ==> IsSpace(s[i])
  {
    if |s| > 0 && IsSpace(s[0]) {
      var u := s[1..];
      TrimStartDropsSpace(u);
      assert u[|u| - |TrimStart(u)|..] == s[|s| - |TrimStart(s)|..];
      assert forall i :: 1 <= i < |s| ==> s[i] == u[i - 1];
    }
  }

  /** `TrimStart` only deletes characters. */
  lemma {:induction false} TrimStartKeepsChars(s: string)
    ensures forall c :: c in TrimStart(s) ==> c in s
  {
    if |s| > 0 && IsSpace(s[0]) {
      TrimStartKeepsChars(s[1..]);
    }
  }

  /** Everything `TrimEnd` drops is whitespace. */
  lemma {:induction false} TrimEndDropsSpace(s: string)
    ensures forall i :: |TrimEnd(s)| <= i < |s| ==> IsSpace(s[i])
  {
    if |s| > 0 && IsSpace(s[|s| - 1]) {
      TrimEndDropsSpace(s[..|s| - 1]);
    }
  }

  /** Python's `s.strip()`: whitespace removed from both ends. */
  function Strip(s: string): (r: string)
    ensures Stripped(r)
    ensures |r| <= |s|
  {
    TrimEnd(TrimStart(s))
  }

  /** What `Strip` keeps is the slice of `s` between its leading and its
      trailing run of whitespace. */
  lemma StripIsSlice(s: string)
    ensures exists lead, stop ::
              && 0 <= lead <= stop <= |s| && Strip(s) == s[lead..stop]
              && (forall i :: 0 <= i < lead ==> IsSpace(s[i]))
              && (forall i :: stop <= i < |s| ==> IsSpace(s[i]))
  {
    var t := TrimStart(s);
    var r := TrimEnd(t);
    TrimStartDropsSpace(s);
    TrimEndDropsSpace(t);
    if |t| == |s| {
      assert Strip(s) == s[0..|r|];
    } else {
      var lead := |s| - |t|;
      assert forall i :: lead + |r| <= i < |s| ==> IsSpace(s[i]) by {
        assert forall i :: lead + |r| <= i < |s| ==> s[i] == t[i - lead];
      }
      assert Strip(s) == s[lead..lead + |r|];
    }
  }

  /** `Strip` only deletes characters: every character it keeps is in `s`. */
  lemma StripKeepsChars(s: string)
    ensures forall c :: c in Strip(s) ==> c in s
  {
    TrimStartKeepsChars(s);
  }

  /** `s.replace('+', '')`: the characters of `s` other than `+`, in order. */
  function RemovePlus(s: string): (r: string)
    ensures |r| <= |s|
  {
    if s == [] then []
    else (if s[0] == '+' then [] else [s[0]]) + RemovePlus(s[1..])
  }

  /** Removing `+` keeps exactly the other characters: no `+` is left, and a
      character other than `+` is in the result exactly when it is in `s`. */
  lemma {:induction false} RemovePlusMembers(s: string)
    ensures forall c :: c in RemovePlus(s) <==> c in s && c != '+'
  {
    if s != [] {
      RemovePlusMembers(s[1..]);
      assert s == [s[0]] + s[1..];
    }
  }

  /** The text transformation of the Fair Value field: strip first, then drop
      every `+`. */
  function Clean(s: string): (r: string)
    ensures |r| <= |s|
    ensures forall c :: c in r ==> c in s && c != '+'
  {
    StripKeepsChars(s);
    RemovePlusMembers(Strip(s));
    RemovePlus(Strip(s))
  }

  /** Removing `+` only ever deletes characters: on a text without `+` it is the
      identity. */
  lemma {:induction false} RemovePlusNoPlus(s: string)
    requires '+' !in s
    ensures RemovePlus(s) == s
  {
    if s != [] {
      assert s[0] != '+';
      RemovePlusNoPlus(s[1..]);
    }
  }

  /** Removing `+` works piece by piece: it distributes over concatenation, so
      it keeps the relative order of the characters it keeps. */
  lemma {:induction false} RemovePlusAppend(a: string, b: string)
    ensures RemovePlus(a + b) == RemovePlus(a) + RemovePlus(b)
  {
    if a == [] {
      assert a + b == b;
    } else {
      assert (a + b)[1..] == a[1..] + b;
      RemovePlusAppend(a[1..], b);
    }
  }

  lemma TrimStartStops(s: string)
    requires s != [] && !IsSpace(s[0])
    ensures TrimStart(s) == s
  {
  }

  lemma TrimEndStops(s: string)
    requires s != [] && !IsSpace(s[|s| - 1])
    ensures TrimEnd(s) == s
  {
  }

  /** A text without whitespace at either end is left as it is by `Strip`. */
  lemma StripStripped(s: string)
    requires Stripped(s)
    ensures Strip(s) == s
  {
    if s == [] {
      assert TrimStart(s) == [];
    } else {
      TrimStartStops(s);
      TrimEndStops(s);
    }
  }

  /** Stripping an already stripped text changes nothing. */
  lemma StripIdempotent(s: string)
    ensures Strip(Strip(s)) == Strip(s)
  {
    StripStripped(Strip(s));
  }

  /** The cleaned text has no `+`, so removing `+` once more changes nothing. */
  lemma CleanRemovePlusIdempotent(s: string)
    ensures RemovePlus(Clean(s)) == Clean(s)
  {
    RemovePlusNoPlus(Clean(s));
  }

  /** A second cleaning only strips the whitespace that the first one uncovered
      by deleting `+`: it never removes characters other than whitespace. */
  lemma CleanTwice(s: string)
    ensures Clean(Clean(s)) == Strip(Clean(s))
  {
    var c := Clean(s);
    StripKeepsChars(c);
    RemovePlusNoPlus(Strip(c));
  }

  /** One leading space in front of a stripped text is removed by `Strip`. */
  lemma StripLeadingSpace(t: string)
    requires t != [] && Stripped(t)
    ensures Strip([' '] + t) == t
  {
    assert ([' '] + t)[1..] == t;
    TrimStartStops(t);
    assert TrimStart([' '] + t) == t;
    TrimEndStops(t);
  }

  /** A `+` in front of a text that has no `+` and no trailing whitespace is
      removed by cleaning, and nothing else is. */
  lemma CleanDropsLeadingPlus(u: string)
    requires u != [] && !IsSpace(u[|u| - 1]) && '+' !in u
    ensures Clean(['+'] + u) == u
  {
    var s := ['+'] + u;
    assert s[1..] == u;
    RemovePlusNoPlus(u);
    assert RemovePlus(s) == u;
    assert Strip(s) == s by {
      assert s[|s| - 1] == u[|u| - 1];
      StripStripped(s);
    }
  }

  /** Stripping happens before `+` is removed, so the whitespace between a
      leading `+` and the digits survives the first cleaning (`"+ 12"` becomes
      `" 12"`) and only a second cleaning strips it. */
  lemma SpaceAfterPlusSurvives(t: string)
    requires t != [] && Stripped(t) && '+' !in t
    ensures Clean(['+', ' '] + t) == [' '] + t
    ensures Clean(Clean(['+', ' '] + t)) == t
  {
    var u := [' '] + t;
    assert ['+', ' '] + t == ['+'] + u;
    assert Clean(['+'] + u) == u by {
      forall i | 0 <= i < |u| ensures u[i] != '+' {
        if i > 0 {
          assert u[i] == t[i - 1];
        }
      }
      assert u[|u| - 1] == t[|t| - 1];
      CleanDropsLeadingPlus(u);
    }
    assert Clean(u) == t by {
      StripLeadingSpace(t);
      RemovePlusNoPlus(t);
    }
  }

  /** The text `+ 12` is cleaned to ` 12` (its last three characters), and
      cleaning that again gives `12`: cleaning is not idempotent on the text
      itself. The text is a parameter pinned character by character, as in
      module `Example`, so that the lemma applies to any text equal to it. */
  lemma CleanNotIdempotentOnText(s: string)
    requires |s| == 4 && s[0] == '+' && s[1] == ' ' && s[2] == '1' && s[3] == '2'
    ensures Clean(s) == s[1..]
    ensures Clean(Clean(s)) == s[2..]
    ensures Clean(Clean(s)) != Clean(s)
  {
    var t := s[2..];
    assert Stripped(t) && '+' !in t;
    assert s == ['+', ' '] + t && s[1..] == [' '] + t;
    SpaceAfterPlusSurvives(t);
  }
}
