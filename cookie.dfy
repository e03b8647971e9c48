/**
 * Looking up a field of the flat session cookie (`name=value; name=value; ...`)
 * the way the program does it: split on `key=`, take the second piece, cut it at `;`.
 * The match is not anchored at a field boundary.
 */
module Cookie {
  import opened Wrappers
  import opened JsString

  /**
   * `cookie.split(key + '=')?.[1]?.split(';')?.[0]`: absent exactly when `key=` does not occur;
   * otherwise a value without `;` that the cookie holds right after a `key=`.
   */
  function CookieValue(cookie: string, key: string): (r: Option<string>)
    ensures r.None? <==> !Includes(cookie, key + "=")
    ensures r.Some? ==> Free(r.value, ";") && Includes(cookie, key + "=" + r.value)
  {
    var parts := Split(cookie, key + "=");
    SplitHead(cookie, key + "=");
    if |parts| < 2 then None
    else
      ValueFollowsKey(cookie, key + "=");
      Some(Split(parts[1], ";")[0])
  }

  /** The piece `CookieValue` returns is found in the cookie right after the separator. */
  lemma ValueFollowsKey(cookie: string, sep: string)
    requires sep != [] && Includes(cookie, sep)
    ensures |Split(cookie, sep)| >= 2
    ensures Includes(cookie, sep + Split(Split(cookie, sep)[1], ";")[0])
  {
    SecondPiece(cookie, sep);
    var i := IndexOf(cookie, sep, 0).value;
    var rest := cookie[i + |sep|..];
    SplitHead(rest, sep);
    var piece := Split(cookie, sep)[1];
    SplitHeadChar(piece, ';');
    var v := Split(piece, ";")[0];
    PrefixOfPrefix(v, piece, rest);
    FollowedBy(cookie, sep, i, v);
    OccursAtIncludes(cookie, sep + v, i);
  }

  /**
   * The value is absent exactly when `key=` never occurs. Otherwise it is the text after the
   * first `key=`, up to (not including) the first `;` or the first further `key=`, or to the end.
   */
  lemma CookieValueSpec(cookie: string, key: string)
    ensures CookieValue(cookie, key).None? <==> !Includes(cookie, key + "=")
    ensures CookieValue(cookie, key).Some? ==>
      var sep := key + "=";
      var rest := cookie[IndexOf(cookie, sep, 0).value + |sep|..];
      var v := CookieValue(cookie, key).value;
      && v <= rest
      && (forall j :: 0 <= j < |v| ==> rest[j] != ';' && !OccursAt(rest, sep, j))
      && (|v| == |rest| || rest[|v|] == ';' || OccursAt(rest, sep, |v|))
  {
    var sep := key + "=";
    if Includes(cookie, sep) {
      var i := IndexOf(cookie, sep, 0).value;
      SecondPiece(cookie, sep);
      HeadUpToSemicolon(cookie[i + |sep|..], sep);
    }
  }

  /** The first piece of `rest`, cut at the first `;`: the text before the first `;` or `sep`. */
  lemma HeadUpToSemicolon(rest: string, sep: string)
    requires sep != []
    ensures var v := Split(Split(rest, sep)[0], ";")[0];
      && v <= rest
      && (forall j :: 0 <= j < |v| ==> rest[j] != ';' && !OccursAt(rest, sep, j))
      && (|v| == |rest| || rest[|v|] == ';' || OccursAt(rest, sep, |v|))
  {
    var piece := Split(rest, sep)[0];
    SplitHead(rest, sep);
    SplitHeadChar(piece, ';');
    var v := Split(piece, ";")[0];
    PrefixOfPrefix(v, piece, rest);
    forall j | 0 <= j < |v| ensures rest[j] != ';' && !OccursAt(rest, sep, j) {
      assert rest[j] == piece[j];
    }
    if |v| < |piece| {
      assert rest[|v|] == piece[|v|];
    }
  }

  /** In the example cookie, the first `skey=` is the one inside `p_skey=`. */
  lemma FirstSkeyInsidePSkey(c: string)
    requires c == "p_skey=AAA; skey=BBB"
    ensures IndexOf(c, "skey" + "=", 0) == Some(2)
  {
    var sep := "skey" + "=";
    assert c[0..5][0] == 'p' && c[1..6][0] == '_';
    assert c[2..7] == sep;
    assert IndexOf(c, sep, 0) == IndexOf(c, sep, 1) == IndexOf(c, sep, 2);
  }

  /**
   * The unanchored match: looking up `skey` finds the `skey=` inside `p_skey=`,
   * so the value of `p_skey` is returned even though a real `skey` field follows.
   */
  lemma SkeyMatchesInsidePSkey(c: string)
    requires c == "p_skey=AAA; skey=BBB"
    ensures CookieValue(c, "skey") == Some("AAA")
  {
    var sep := "skey" + "=";
    FirstSkeyInsidePSkey(c);
    CookieValueSpec(c, "skey");
    var rest := c[7..];
    forall j | 0 <= j < 3 ensures !OccursAt(rest, sep, j) && rest[j] != ';' {
      assert rest[j..j + 5][0] == rest[j] == c[7 + j] == 'A';
    }
    assert rest[3] == c[10] == ';';
    ValueEndsAtSemicolon(rest, sep, CookieValue(c, "skey").value, 3);
    assert rest[..3] == c[7..10] == "AAA";
  }

  /** A value read as `CookieValueSpec` describes ends at a `;` that no `;` or separator precedes. */
  lemma ValueEndsAtSemicolon(rest: string, sep: string, v: string, p: nat)
    requires v <= rest
    requires forall j :: 0 <= j < |v| ==> rest[j] != ';' && !OccursAt(rest, sep, j)
    requires |v| == |rest| || rest[|v|] == ';' || OccursAt(rest, sep, |v|)
    requires p < |rest| && rest[p] == ';'
    requires forall j :: 0 <= j < p ==> rest[j] != ';' && !OccursAt(rest, sep, j)
    ensures v == rest[..p]
  {
    assert |v| == p;
  }
}
