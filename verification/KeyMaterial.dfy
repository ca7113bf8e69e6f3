/** Which texts look like the material of a private key. */
module KeyMaterial {
  import opened JsText

  const BEGIN: Text := U("-----BEGIN ")
  const PRIVATE_KEY: Text := U("PRIVATE KEY-----")

  /** `[A-Z0-9 ]` */
  predicate LabelUnit(u: Unit) {
    U("A")[0] <= u <= U("Z")[0] || U("0")[0] <= u <= U("9")[0] || u == U(" ")[0]
  }

  /** `[A-Z0-9 ]*PRIVATE KEY-----` at the start of the text. */
  predicate LabelEnds(t: Text) {
    StartsWith(t, PRIVATE_KEY) || (t != [] && LabelUnit(t[0]) && LabelEnds(t[1..]))
  }

  /** `/-----BEGIN [A-Z0-9 ]*PRIVATE KEY-----/.test(t)` */
  predicate MarkerMatches(t: Text) {
    || (StartsWith(t, BEGIN) && LabelEnds(t[|BEGIN|..]))
    || (t != [] && MarkerMatches(t[1..]))
  }

  /** `[A-Za-z0-9+/=_\-]` */
  predicate Base64Unit(u: Unit) {
    || U("A")[0] <= u <= U("Z")[0] || U("a")[0] <= u <= U("z")[0] || U("0")[0] <= u <= U("9")[0]
    || u in U("+/=_-")
  }

  predicate LooksLikeKeyMaterial(value: Text) {
    MarkerMatches(value) || (|value| > 200 && forall u <- value :: Base64Unit(u))
  }

  // ---- What such a text is ----

  /** The word stands in the text from there on. */
  predicate Stands(t: Text, i: int, word: Text) {
    0 <= i && i + |word| <= |t| && t[i..i + |word|] == word
  }

  /** Capital letters, decimal digits and blanks, by their code. */
  predicate InLabel(u: Unit) {
    65 <= u <= 90 || 48 <= u <= 57 || u == 32
  }

  /** Somewhere in the text stands the first line of a private key. */
  ghost predicate HasKeyLine(t: Text) {
    exists i, j ::
      && Stands(t, i, U("-----BEGIN ")) && Stands(t, j, U("PRIVATE KEY-----")) && i + 11 <= j
      && forall k | i + 11 <= k < j :: InLabel(t[k])
  }

  /** Letters, digits and the five signs of the two base-64 alphabets, by their code. */
  predicate InBase64(u: Unit) {
    65 <= u <= 90 || 97 <= u <= 122 || 48 <= u <= 57 || u == 43 || u == 47 || u == 61 || u == 95 || u == 45
  }

  /** Neither the first line of a private key nor more than two hundred units of
      base 64. */
  ghost predicate KeyFree(t: Text) {
    !HasKeyLine(t) && (|t| <= 200 || exists u <- t :: !InBase64(u))
  }

  lemma SliceAfter(t: Text, i: int, n: int)
    requires 0 < i && 0 <= n && i + n <= |t|
    ensures t[1..][i - 1..i - 1 + n] == t[i..i + n]
  {
    var a, b := t[1..][i - 1..i - 1 + n], t[i..i + n];
    forall k | 0 <= k < n
      ensures a[k] == b[k]
    {
      assert t[1..][i - 1 + k] == t[i + k];
    }
  }

  lemma StandsAfter(t: Text, i: int, word: Text)
    requires t != []
    ensures i > 0 ==> (Stands(t, i, word) <==> Stands(t[1..], i - 1, word))
    ensures Stands(t, 0, word) <==> StartsWith(t, word)
  {
    if i > 0 && i + |word| <= |t| {
      SliceAfter(t, i, |word|);
    }
  }

  /** The rest of a first line: the label and what closes it. */
  ghost predicate LineGoesOn(t: Text, j: int) {
    Stands(t, j, U("PRIVATE KEY-----")) && forall k | 0 <= k < j :: InLabel(t[k])
  }

  ghost predicate Closes(t: Text) {
    exists j :: LineGoesOn(t, j)
  }

  lemma {:induction false} LabelEndsIff(t: Text)
    ensures LabelEnds(t) <==> Closes(t)
  {
    if t != [] {
      LabelEndsIff(t[1..]);
      StandsAfter(t, 0, PRIVATE_KEY);
      if StartsWith(t, PRIVATE_KEY) {
        assert LineGoesOn(t, 0);
      } else if LabelEnds(t) {
        var j :| LineGoesOn(t[1..], j);
        StandsAfter(t, j + 1, PRIVATE_KEY);
        assert forall k | 1 <= k < j + 1 :: t[k] == t[1..][k - 1];
        assert LineGoesOn(t, j + 1);
      }
      if j :| LineGoesOn(t, j) && j > 0 {
        StandsAfter(t, j, PRIVATE_KEY);
        assert forall k | 0 <= k < j - 1 :: t[1..][k] == t[k + 1];
        assert LineGoesOn(t[1..], j - 1);
      }
    }
  }

  /** The first line stands in the text from there on. */
  ghost predicate LineFrom(t: Text, i: int) {
    Stands(t, i, U("-----BEGIN ")) && Closes(t[i + 11..])
  }

  lemma LineFromIff(t: Text, i: int)
    ensures LineFrom(t, i) <==>
            Stands(t, i, U("-----BEGIN ")) &&
            exists j :: Stands(t, j, U("PRIVATE KEY-----")) && i + 11 <= j &&
              forall k | i + 11 <= k < j :: InLabel(t[k])
  {
    if Stands(t, i, U("-----BEGIN ")) {
      var rest := t[i + 11..];
      if j :| LineGoesOn(rest, j) {
        assert t[j + i + 11..j + i + 27] == rest[j..j + 16];
        assert Stands(t, j + i + 11, U("PRIVATE KEY-----"));
        assert forall k | i + 11 <= k < j + i + 11 :: t[k] == rest[k - i - 11];
      }
      if j :| Stands(t, j, U("PRIVATE KEY-----")) && i + 11 <= j && forall k | i + 11 <= k < j :: InLabel(t[k]) {
        assert rest[j - i - 11..j - i + 5] == t[j..j + 16];
        assert LineGoesOn(rest, j - i - 11);
      }
    }
  }

  lemma {:induction false} MarkerFromIff(t: Text)
    ensures MarkerMatches(t) <==> exists i :: LineFrom(t, i)
  {
    hide LabelEnds, Closes;
    if t != [] {
      MarkerFromIff(t[1..]);
      StandsAfter(t, 0, BEGIN);
      if StartsWith(t, BEGIN) {
        LabelEndsIff(t[|BEGIN|..]);
      }
      if i :| LineFrom(t[1..], i) {
        StandsAfter(t, i + 1, BEGIN);
        assert t[i + 12..] == t[1..][i + 11..];
        assert LineFrom(t, i + 1);
      }
      if i :| LineFrom(t, i) && i > 0 {
        StandsAfter(t, i, BEGIN);
        assert t[i + 11..] == t[1..][i + 10..];
        assert LineFrom(t[1..], i - 1);
      }
      if MarkerMatches(t) && !MarkerMatches(t[1..]) {
        assert LineFrom(t, 0);
      }
    }
  }

  /** The scan finds exactly the texts with such a line. */
  lemma MarkerMatchesIff(t: Text)
    ensures MarkerMatches(t) <==> HasKeyLine(t)
  {
    MarkerFromIff(t);
    forall i { LineFromIff(t, i); }
  }

  lemma Base64UnitIff(u: Unit)
    ensures Base64Unit(u) <==> InBase64(u)
  {
    var signs := U("+/=_-");
    assert signs == [43, 47, 61, 95, 45];
  }

  /** What looks like key material, in full. */
  lemma LooksLikeKeyMaterialIff(t: Text)
    ensures LooksLikeKeyMaterial(t) <==> !KeyFree(t)
  {
    hide MarkerMatches, HasKeyLine, Base64Unit, InBase64;
    MarkerMatchesIff(t);
    forall u ensures Base64Unit(u) <==> InBase64(u) {
      Base64UnitIff(u);
    }
  }

  lemma ShortIsKeyFree(t: Text)
    requires |t| < 27
    ensures KeyFree(t)
  {
  }
}
