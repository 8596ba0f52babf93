/**
  The client's string codec for dots (src/client/types/crdt/generic/dot.ts):
  a dot is rendered as `<id>:<seq>` and read back by splitting at the last
  colon and parsing the rest as a base-10 integer. The client kernel keys
  its value map by these strings.
 */
module ClientDots {
  import opened Util
  import opened Dots

  /** `toKey()`: the id, a colon, the decimal sequence number. */
  function ToKey(d: Dot<string>): (key: string)
    ensures key == d.id + [':'] + IntToDecimal(d.seqNo)
  {
    d.id + ":" + IntToDecimal(d.seqNo)
  }

  /**
    The characters `parseInt` skips before the sign: ECMAScript's white
    space (tab, vertical tab, form feed, the byte order mark and the space
    separators) and its line terminators.
   */
  predicate IsJsWhiteSpace(c: char)
  {
    || c == '\t' || c == '\U{000B}' || c == '\U{000C}' || c == ' ' || c == '\U{00A0}'
    || c == '\U{FEFF}' || c == '\U{1680}' || ('\U{2000}' <= c <= '\U{200A}')
    || c == '\U{202F}' || c == '\U{205F}' || c == '\U{3000}'
    || c == '\n' || c == '\r' || c == '\U{2028}' || c == '\U{2029}'
  }

  /** `s` without its leading white space. */
  function SkipWhiteSpace(s: string): string
  {
    if s != [] && IsJsWhiteSpace(s[0]) then SkipWhiteSpace(s[1..]) else s
  }

  /**
    What `SkipWhiteSpace` drops is exactly the white space in front: the
    result is a suffix of the input, everything before it is white space,
    and it does not itself start with white space.
   */
  lemma {:induction false} SkipWhiteSpaceDropsPrefix(s: string)
    ensures var t := SkipWhiteSpace(s);
      && |t| <= |s| && t == s[|s| - |t|..]
      && (forall i :: 0 <= i < |s| - |t| ==> IsJsWhiteSpace(s[i]))
      && (t == [] || !IsJsWhiteSpace(t[0]))
  {
    if s != [] && IsJsWhiteSpace(s[0]) {
      SkipWhiteSpaceDropsPrefix(s[1..]);
    }
  }

  /** `parseInt(s, 10)`: leading white space is skipped, then the sign and digits are read. */
  function JsParseInt(s: string): Option<int>
  {
    ParseInt(SkipWhiteSpace(s))
  }

  /**
    `Dot.fromKey(key)`: the text before the last colon is the id, the text
    after it is read with `parseInt(_, 10)`. `None` stands for the two
    inputs the source does not turn into a usable dot: a key without a
    colon, and a suffix `parseInt` reads as NaN.
   */
  function FromKey(key: string): (r: Option<Dot<string>>)
    ensures r.Some? ==>
              var n := |r.value.id|;
              && n < |key| && key[..n] == r.value.id && key[n] == ':'
              && ':' !in key[n + 1..]
              && JsParseInt(key[n + 1..]) == Some(r.value.seqNo)
    ensures r.None? <==> LastIndexOf(key, ':') < 0 || JsParseInt(key[LastIndexOf(key, ':') + 1..]).None?
  {
    var i := LastIndexOf(key, ':');
    if i < 0 then None
    else
      match JsParseInt(key[i + 1..])
      case None => None
      case Some(n) => Some(Dot(key[..i], n))
  }

  /** Every dot reads back from its key, whatever colons its id holds. */
  lemma FromKeyToKey(d: Dot<string>)
    ensures FromKey(ToKey(d)) == Some(d)
  {
    var digits := IntToDecimal(d.seqNo);
    var key := ToKey(d);
    assert ':' !in digits by {
      assert forall k :: 0 <= k < |digits| ==> digits[k] != ':';
    }
    LastIndexOfSplit(d.id, ':', digits);
    assert key[|d.id| + 1..] == digits && key[..|d.id|] == d.id;
    assert SkipWhiteSpace(digits) == digits;
    IntToDecimalParses(d.seqNo);
  }

  /** Distinct dots have distinct keys, which is what makes the key usable as a map key. */
  lemma ToKeyInjective(a: Dot<string>, b: Dot<string>)
    ensures ToKey(a) == ToKey(b) <==> a == b
  {
    if ToKey(a) == ToKey(b) {
      FromKeyToKey(a);
      FromKeyToKey(b);
    }
  }

  /** A key the kernel can hold: it reads back to a dot whose key it is. */
  predicate Canonical(key: string)
  {
    FromKey(key).Some? && ToKey(FromKey(key).value) == key
  }

  /** The dot a canonical key stands for. */
  function DotOf(key: string): (d: Dot<string>)
    requires Canonical(key)
    ensures ToKey(d) == key
  {
    FromKey(key).value
  }

  /** Every key `toKey` writes is canonical and stands for the dot it was written from. */
  lemma ToKeyCanonical(d: Dot<string>)
    ensures Canonical(ToKey(d)) && DotOf(ToKey(d)) == d
  {
    FromKeyToKey(d);
  }

  /** White space in front of a text that does not start with white space is all `SkipWhiteSpace` drops. */
  lemma {:induction false} SkipWhiteSpaceBefore(w: string, rest: string)
    requires forall i :: 0 <= i < |w| ==> IsJsWhiteSpace(w[i])
    requires rest == [] || !IsJsWhiteSpace(rest[0])
    ensures SkipWhiteSpace(w + rest) == rest
  {
    if w != [] {
      assert (w + rest)[1..] == w[1..] + rest;
      SkipWhiteSpaceBefore(w[1..], rest);
    }
  }

  /**
    `parseInt` skips white space before the number, so a key with white
    space after its last colon still reads back to the dot, but is not
    that dot's key.
   */
  lemma WhiteSpaceBeforeNumber(d: Dot<string>, w: string)
    requires w != [] && forall i :: 0 <= i < |w| ==> IsJsWhiteSpace(w[i])
    ensures FromKey(d.id + ":" + w + IntToDecimal(d.seqNo)) == Some(d)
    ensures !Canonical(d.id + ":" + w + IntToDecimal(d.seqNo))
  {
    var digits := IntToDecimal(d.seqNo);
    var key := d.id + ":" + w + digits;
    assert ':' !in w + digits by {
      assert forall k :: 0 <= k < |w + digits| ==> (w + digits)[k] != ':';
    }
    assert key == d.id + [':'] + (w + digits);
    LastIndexOfSplit(d.id, ':', w + digits);
    assert key[|d.id| + 1..] == w + digits && key[..|d.id|] == d.id;
    SkipWhiteSpaceBefore(w, digits);
    IntToDecimalParses(d.seqNo);
    assert |ToKey(d)| < |key|;
  }

  /** A key with leading zeros reads back to a dot, but is not that dot's key. */
  lemma LeadingZerosNotCanonical()
    ensures FromKey("a:07") == Some(Dot("a", 7))
    ensures !Canonical("a:07")
  {
    assert IndexBelow("a:07", ':', 2) == 1;
    assert IndexBelow("a:07", ':', 4) == IndexBelow("a:07", ':', 3) == IndexBelow("a:07", ':', 2);
    assert "a:07"[2..] == "07";
    assert DigitPrefixLength("07") == 2;
    assert DigitsValue("07") == 7 by {
      assert "07"[..1] == "0" && "0"[..0] == "";
    }
    assert "07"[..2] == "07";
    assert JsParseInt("07") == Some(7);
    assert "a:07"[..1] == "a";
    assert IntToDecimal(7) == "7";
  }
}
