/**
 * The parts of Go's `strings` and `unicode` packages that `cleanBody` relies on:
 * `unicode.IsSpace`, `strings.Fields`, `strings.Join(_, " ")` and `strings.ToLower`.
 * A Go string is UTF-8; here it is its sequence of runes (Dafny `char`s are
 * Unicode scalar values), which is what all four functions work on.
 */
module Text {

  /** `unicode.IsSpace`: the Latin-1 spaces and the Unicode White_Space property. */
  predicate IsSpace(c: char) {
    var n := c as int;
    (0x09 <= n <= 0x0D) || n == 0x20 || n == 0x85 || n == 0xA0 || n == 0x1680
    || (0x2000 <= n <= 0x200A) || n == 0x2028 || n == 0x2029 || n == 0x202F
    || n == 0x205F || n == 0x3000
  }

  /** A field as `strings.Fields` produces it: non-empty, without white space. */
  predicate IsWord(w: string) {
    w != [] && forall i :: 0 <= i < |w| ==> !IsSpace(w[i])
  }

  predicate AllWords(ws: seq<string>) {
    forall i :: 0 <= i < |ws| ==> IsWord(ws[i])
  }

  /** The length of the longest space-free prefix of `s`. */
  function WordLength(s: string): (n: nat)
    ensures n <= |s|
    ensures forall i :: 0 <= i < n ==> !IsSpace(s[i])
    ensures n < |s| ==> IsSpace(s[n])
  {
    if s == [] || IsSpace(s[0]) then 0 else 1 + WordLength(s[1..])
  }

  /** `strings.Fields`: the maximal runs of non-space runes, in order. */
  function Fields(s: string): (ws: seq<string>)
    ensures AllWords(ws)
    decreases |s|
  {
    if s == [] then []
    else if IsSpace(s[0]) then Fields(s[1..])
    else
      var n := WordLength(s);
      [s[..n]] + Fields(s[n..])
  }

  /** `strings.Join(ws, " ")`. */
  function Join(ws: seq<string>): string {
    if |ws| == 0 then ""
    else if |ws| == 1 then ws[0]
    else ws[0] + " " + Join(ws[1..])
  }

  /** Simple lower-case mapping of one rune, as far as it can produce an ASCII letter. */
  function LowerRune(c: char): char {
    if 'A' <= c <= 'Z' then (c as int + 32) as char
    else if c == '\U{212A}' then 'k'  // KELVIN SIGN
    else if c == '\U{0130}' then 'i'  // LATIN CAPITAL LETTER I WITH DOT ABOVE
    else c
  }

  /** `strings.ToLower`, rune by rune. */
  function ToLower(s: string): string {
    seq(|s|, i requires 0 <= i < |s| => LowerRune(s[i]))
  }

  /** A word followed by nothing or by white space is the first field. */
  lemma FieldsOfWordThen(w: string, t: string)
    requires IsWord(w)
    requires t == [] || IsSpace(t[0])
    ensures Fields(w + t) == [w] + Fields(t)
  {
    var s := w + t;
    var n := WordLength(s);
    assert forall i :: 0 <= i < |w| ==> s[i] == w[i];
    assert |w| < |s| ==> s[|w|] == t[0];
    assert n == |w|;
    assert s[..n] == w;
    assert s[n..] == t;
  }

  /** Splitting what was joined gives the words back. */
  lemma {:induction false} FieldsOfJoin(ws: seq<string>)
    requires AllWords(ws)
    ensures Fields(Join(ws)) == ws
  {
    if |ws| == 0 {
    } else if |ws| == 1 {
      FieldsOfWordThen(ws[0], "");
      assert ws[0] + "" == ws[0];
    } else {
      var rest := Join(ws[1..]);
      assert AllWords(ws[1..]) by {
        forall i | 0 <= i < |ws| - 1 ensures IsWord(ws[1..][i]) {
          assert ws[1..][i] == ws[i + 1];
        }
      }
      FieldsOfJoin(ws[1..]);
      assert Join(ws) == ws[0] + (" " + rest);
      FieldsOfWordThen(ws[0], " " + rest);
      assert (" " + rest)[1..] == rest;
    }
  }

  /** A run of white space, possibly empty. */
  predicate AllSpace(sep: string) {
    forall i :: 0 <= i < |sep| ==> IsSpace(sep[i])
  }

  /** `seps[0] + ws[0] + seps[1] + ... + ws[|ws| - 1] + seps[|ws|]`. */
  function Spaced(ws: seq<string>, seps: seq<string>): string
    requires |seps| == |ws| + 1
  {
    if |ws| == 0 then seps[0] else seps[0] + ws[0] + Spaced(ws[1..], seps[1..])
  }

  /** One run of white space around and between each two words, the inner runs non-empty. */
  predicate Separates(ws: seq<string>, seps: seq<string>) {
    && |seps| == |ws| + 1
    && (forall i :: 0 <= i < |seps| ==> AllSpace(seps[i]))
    && (forall i :: 0 < i < |ws| ==> seps[i] != [])
  }

  /** Leading white space does not change the fields. */
  lemma {:induction false} FieldsSkipsSpace(sp: string, t: string)
    requires AllSpace(sp)
    ensures Fields(sp + t) == Fields(t)
  {
    if sp == [] {
      assert sp + t == t;
    } else {
      assert (sp + t)[1..] == sp[1..] + t;
      FieldsSkipsSpace(sp[1..], t);
    }
  }

  /** Dropping the first word and the first run keeps the words separated. */
  lemma SeparatesTail(ws: seq<string>, seps: seq<string>)
    requires AllWords(ws) && Separates(ws, seps) && ws != []
    ensures AllWords(ws[1..]) && Separates(ws[1..], seps[1..])
  {
    assert forall i :: 0 <= i < |ws| - 1 ==> ws[1..][i] == ws[i + 1];
    assert forall i :: 0 <= i < |seps| - 1 ==> seps[1..][i] == seps[i + 1];
  }

  /** A spaced string whose first run is non-empty, or that has no words, starts with white space if at all. */
  lemma SpacedStart(ws: seq<string>, seps: seq<string>)
    requires Separates(ws, seps)
    requires ws == [] || seps[0] != []
    ensures Spaced(ws, seps) == [] || IsSpace(Spaced(ws, seps)[0])
  {
    assert AllSpace(seps[0]);
    if ws != [] {
      assert Spaced(ws, seps) == seps[0] + (ws[0] + Spaced(ws[1..], seps[1..]));
    }
  }

  /** The fields of words separated by any runs of white space are those words. */
  lemma {:induction false} FieldsOfSpaced(ws: seq<string>, seps: seq<string>)
    requires AllWords(ws) && Separates(ws, seps)
    ensures Fields(Spaced(ws, seps)) == ws
  {
    if |ws| == 0 {
      FieldsSkipsSpace(seps[0], []);
      assert seps[0] + [] == seps[0];
    } else {
      var rest := Spaced(ws[1..], seps[1..]);
      assert Spaced(ws, seps) == seps[0] + (ws[0] + rest);
      FieldsSkipsSpace(seps[0], ws[0] + rest);
      SeparatesTail(ws, seps);
      assert ws[1..] == [] || seps[1..][0] != [];
      SpacedStart(ws[1..], seps[1..]);
      FieldsOfWordThen(ws[0], rest);
      FieldsOfSpaced(ws[1..], seps[1..]);
      assert ws == [ws[0]] + ws[1..];
    }
  }

  /** Prepending white space to the first run keeps the string spaced. */
  lemma SpacedLeading(ws: seq<string>, seps: seq<string>, sp: string)
    requires |seps| == |ws| + 1
    ensures Spaced(ws, [sp + seps[0]] + seps[1..]) == sp + Spaced(ws, seps)
  {
    var seps' := [sp + seps[0]] + seps[1..];
    assert seps'[1..] == seps[1..];
  }

  /** A white-space rune can join the first run. */
  lemma SeparatesLeading(ws: seq<string>, seps: seq<string>, c: char)
    requires Separates(ws, seps) && IsSpace(c)
    ensures Separates(ws, [[c] + seps[0]] + seps[1..])
  {
    var seps' := [[c] + seps[0]] + seps[1..];
    assert forall i :: 0 < i < |seps'| ==> seps'[i] == seps[i];
    assert AllSpace(seps'[0]) by {
      assert forall i :: 0 < i < |seps'[0]| ==> seps'[0][i] == seps[0][i - 1];
    }
  }

  /** A word in front with an empty first run keeps the words separated, if the old first run was non-empty. */
  lemma SeparatesWord(w: string, ws: seq<string>, seps: seq<string>)
    requires Separates(ws, seps)
    requires ws != [] ==> seps[0] != []
    ensures Separates([w] + ws, [[]] + seps)
  {
    var seps' := [[]] + seps;
    assert forall i :: 0 < i < |seps'| ==> seps'[i] == seps[i - 1];
  }

  /** Every string is its fields separated by runs of white space. */
  lemma {:induction false} FieldsSeparate(s: string)
    ensures exists seps :: Separates(Fields(s), seps) && Spaced(Fields(s), seps) == s
  {
    var seps := Separators(s);
  }

  /** A leading white-space rune joins the first run of the rest. */
  lemma SpaceThenSpaced(s: string, tail: seq<string>)
    requires s != [] && IsSpace(s[0])
    requires Separates(Fields(s[1..]), tail) && Spaced(Fields(s[1..]), tail) == s[1..]
    ensures Separates(Fields(s), [[s[0]] + tail[0]] + tail[1..])
    ensures Spaced(Fields(s), [[s[0]] + tail[0]] + tail[1..]) == s
  {
    assert Fields(s) == Fields(s[1..]);
    SpacedLeading(Fields(s), tail, [s[0]]);
    SeparatesLeading(Fields(s), tail, s[0]);
    assert [s[0]] + s[1..] == s;
  }

  /** A leading word comes before the first run of the rest, with an empty run in front. */
  lemma WordThenSpaced(w: string, t: string, tail: seq<string>)
    requires IsWord(w) && (t == [] || IsSpace(t[0]))
    requires Separates(Fields(t), tail) && Spaced(Fields(t), tail) == t
    requires t != [] ==> tail[0] != []
    ensures Separates(Fields(w + t), [[]] + tail) && Spaced(Fields(w + t), [[]] + tail) == w + t
  {
    FieldsOfWordThen(w, t);
    var ws, seps := [w] + Fields(t), [[]] + tail;
    assert Fields(t) != [] ==> t != [];
    SeparatesWord(w, Fields(t), tail);
    assert ws[1..] == Fields(t) && seps[1..] == tail;
    assert Spaced(ws, seps) == [] + w + t;
  }

  /** The runs of white space around the fields of `s`. */
  lemma {:induction false} Separators(s: string) returns (seps: seq<string>)
    ensures Separates(Fields(s), seps) && Spaced(Fields(s), seps) == s
    ensures s != [] && IsSpace(s[0]) ==> seps[0] != []
    decreases |s|
  {
    if s == [] {
      seps := [[]];
    } else if IsSpace(s[0]) {
      var tail := Separators(s[1..]);
      SpaceThenSpaced(s, tail);
      seps := [[s[0]] + tail[0]] + tail[1..];
    } else {
      var n := WordLength(s);
      var w, t := s[..n], s[n..];
      assert s == w + t && IsWord(w);
      var tail := Separators(t);
      WordThenSpaced(w, t, tail);
      seps := [[]] + tail;
    }
  }
}
