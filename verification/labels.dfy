/** The axis label of the neighbourhood chart, `x.split()[0][:5]`: the first
    whitespace-delimited word of the neighbourhood name, cut to at most five
    characters. `split()` of a name that is empty or all whitespace returns
    an empty list, and indexing it raises IndexError: that case is None. */
module Labels {
  import opened Optional

  const LabelWidth: nat := 5

  /** The characters `str.split()` without arguments splits on (those for
      which `str.isspace()` holds). */
  predicate IsSpace(c: char)
  {
    || c == ' '
    || ('\t' <= c <= '\r')
    || ('\U{1c}' <= c <= '\U{1f}')
    || c == '\U{85}' || c == '\U{a0}' || c == '\U{1680}'
    || ('\U{2000}' <= c <= '\U{200a}')
    || c == '\U{2028}' || c == '\U{2029}' || c == '\U{202f}' || c == '\U{205f}' || c == '\U{3000}'
  }

  predicate NoSpace(s: string)
  {
    forall i :: 0 <= i < |s| ==> !IsSpace(s[i])
  }

  predicate AllSpace(s: string)
  {
    forall i :: 0 <= i < |s| ==> IsSpace(s[i])
  }

  /** The run of non-space characters `s` starts with. */
  function Word(s: string): (w: string)
    ensures |w| <= |s| && w == s[..|w|] && NoSpace(w)
    ensures |w| < |s| ==> IsSpace(s[|w|])
  {
    if s == [] || IsSpace(s[0]) then [] else [s[0]] + Word(s[1..])
  }

  /** `s.split()[0]`, or None where it raises: there is a first token exactly
      when the string is not all whitespace, and it is a maximal non-empty run
      of non-space characters preceded only by whitespace. */
  function FirstToken(s: string): (r: Option<string>)
    ensures r.None? <==> AllSpace(s)
    ensures r.Some? ==> 1 <= |r.value| && NoSpace(r.value) && exists i :: TokenAt(s, i, r.value)
  {
    if s == [] then None
    else if IsSpace(s[0]) then
      var r := FirstToken(s[1..]);
      SkipLeadingSpace(s, r);
      r
    else
      assert s[..0] == [] && TokenAt(s, 0, Word(s));
      Some(Word(s))
  }

  /** `s.split()[0][:5]`, or None where it raises. The label has one to five
      characters, no whitespace, and is a prefix of the first token; it is
      the whole token when that has five characters or fewer, and exactly
      five characters otherwise. */
  function ShortLabel(s: string): (l: Option<string>)
    ensures l.None? <==> AllSpace(s)
    ensures l.Some? ==>
      var t := FirstToken(s).value;
      && 1 <= |l.value| <= LabelWidth && NoSpace(l.value) && l.value <= t
      && (|t| <= LabelWidth ==> l.value == t)
      && (|t| > LabelWidth ==> |l.value| == LabelWidth)
  {
    match FirstToken(s)
    case None => None
    case Some(t) => Some(if |t| <= LabelWidth then t else t[..LabelWidth])
  }

  /** `t` sits at position `i` of `s` as a whole word after leading whitespace. */
  predicate TokenAt(s: string, i: int, t: string)
  {
    && 0 <= i && i + |t| <= |s|
    && AllSpace(s[..i])
    && s[i..i + |t|] == t
    && (i + |t| == |s| || IsSpace(s[i + |t|]))
  }

  // ---------------------------------------------------------------------
  // Lemmas
  // ---------------------------------------------------------------------

  /** A leading space neither creates nor hides a token: what holds of the
      first token of `s[1..]` holds of `s`. */
  lemma SkipLeadingSpace(s: string, r: Option<string>)
    requires s != [] && IsSpace(s[0])
    requires r.None? <==> AllSpace(s[1..])
    requires r.Some? ==> 1 <= |r.value| && NoSpace(r.value) && exists i :: TokenAt(s[1..], i, r.value)
    ensures r.None? <==> AllSpace(s)
    ensures r.Some? ==> 1 <= |r.value| && NoSpace(r.value) && exists i :: TokenAt(s, i, r.value)
  {
    if AllSpace(s[1..]) {
      forall i | 0 <= i < |s| ensures IsSpace(s[i]) {
        if i > 0 { assert s[i] == s[1..][i - 1]; }
      }
    }
    if AllSpace(s) {
      forall i | 0 <= i < |s[1..]| ensures IsSpace(s[1..][i]) {
        assert s[1..][i] == s[i + 1];
      }
    }
    if r.Some? {
      var t := r.value;
      var i :| TokenAt(s[1..], i, t);
      assert s[..i + 1] == [s[0]] + s[1..][..i];
      assert s[i + 1..i + 1 + |t|] == s[1..][i..i + |t|];
      assert TokenAt(s, i + 1, t);
    }
  }
}
