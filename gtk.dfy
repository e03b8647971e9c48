/**
 * `getGtk`: the anti-forgery token sent with every request. A session key is chosen from the
 * cookie (or an explicit argument), then hashed with a times-33 hash computed in JavaScript
 * numbers, where `<<` works on 32-bit two's-complement integers, and masked to 31 bits.
 */
module Gtk {
  import opened Wrappers
  import opened JsString
  import opened Cookie

  const HashSeed: int := 5381
  const Two31: int := 0x8000_0000
  const Two32: int := 0x1_0000_0000
  /** Integers up to this magnitude are exact in a JavaScript number. */
  const Two53: int := 0x20_0000_0000_0000

  // ---------------------------------------------------------------- key choice

  /** `skey || getCookieValue('skey') || getCookieValue('rv2') || ''`. */
  function BaseKey(cookie: string, skey: Option<string>): (k: string)
    ensures k == "" || Some(k) == skey || Some(k) == CookieValue(cookie, "skey") || Some(k) == CookieValue(cookie, "rv2")
  {
    if Truthy(skey) then skey.value
    else if Truthy(CookieValue(cookie, "skey")) then CookieValue(cookie, "skey").value
    else if Truthy(CookieValue(cookie, "rv2")) then CookieValue(cookie, "rv2").value
    else ""
  }

  /** The host test deciding whether `p_skey` takes over. */
  predicate UsesPSkey(hostname: string) {
    || Includes(hostname, "qun.qq.com")
    || (Includes(hostname, "qzone.qq.com") && !Includes(hostname, "qun.qzone.qq.com"))
  }

  /**
   * The key that is hashed. `hostname` is the host of the `url` argument, `None` when no
   * URL is given.
   */
  function SelectKey(cookie: string, skey: Option<string>, hostname: Option<string>): (k: string)
    ensures k == BaseKey(cookie, skey) || Some(k) == CookieValue(cookie, "p_skey")
    ensures k != BaseKey(cookie, skey) ==> hostname.Some? && UsesPSkey(hostname.value) && Truthy(CookieValue(cookie, "p_skey"))
  {
    var base := BaseKey(cookie, skey);
    if hostname.Some? && UsesPSkey(hostname.value) then
      var pSkey := CookieValue(cookie, "p_skey");
      if Truthy(pSkey) then pSkey.value else base
    else base
  }

  /** The base key is the first non-empty candidate, in the order argument, `skey`, `rv2`, else empty. */
  lemma BaseKeyOrder(cookie: string, skey: Option<string>)
    ensures BaseKey(cookie, skey) == "" <==>
      !Truthy(skey) && !Truthy(CookieValue(cookie, "skey")) && !Truthy(CookieValue(cookie, "rv2"))
    ensures Truthy(skey) ==> BaseKey(cookie, skey) == skey.value
    ensures !Truthy(skey) && Truthy(CookieValue(cookie, "skey")) ==>
      BaseKey(cookie, skey) == CookieValue(cookie, "skey").value
    ensures !Truthy(skey) && !Truthy(CookieValue(cookie, "skey")) && Truthy(CookieValue(cookie, "rv2")) ==>
      BaseKey(cookie, skey) == CookieValue(cookie, "rv2").value
  {
  }

  /**
   * A non-empty `p_skey` replaces the base key exactly for hosts containing `qun.qq.com`, or
   * containing `qzone.qq.com` but not `qun.qzone.qq.com`; without a URL it never does.
   */
  lemma PSkeyOverride(cookie: string, skey: Option<string>, hostname: Option<string>)
    requires Truthy(CookieValue(cookie, "p_skey"))
    requires CookieValue(cookie, "p_skey").value != BaseKey(cookie, skey)
    ensures SelectKey(cookie, skey, hostname) == CookieValue(cookie, "p_skey").value <==>
      hostname.Some? && UsesPSkey(hostname.value)
    ensures !(hostname.Some? && UsesPSkey(hostname.value)) ==>
      SelectKey(cookie, skey, hostname) == BaseKey(cookie, skey)
  {
  }

  /** The album API's host, `user.qzone.qq.com`, always takes `p_skey` when the cookie has one. */
  lemma ApiHostUsesPSkey(host: string)
    requires host == "user.qzone.qq.com"
    ensures UsesPSkey(host)
  {
    var pat := "qzone.qq.com";
    assert host[5..17] == pat;
    OccursAtIncludes(host, pat, 5);
    var qun := "qun.qzone.qq.com";
    assert host[0..16][0] == 'u' && host[1..17][0] == 's';
    assert IndexOf(host, qun, 0) == IndexOf(host, qun, 1) == IndexOf(host, qun, 2) == None;
  }

  /**
   * With the unanchored cookie lookup, `p_skey`'s value is taken as `skey` whenever the
   * `p_skey` field comes first, even when no URL is given.
   */
  lemma PSkeyValueUsedWithoutUrl(c: string)
    requires c == "p_skey=AAA; skey=BBB"
    ensures SelectKey(c, None, None) == "AAA"
  {
    SkeyMatchesInsidePSkey(c);
  }

  // ---------------------------------------------------------------- UTF-16 code units

  /** The UTF-16 code units of one character (`charCodeAt` reads these). */
  function CodeUnits(c: char): (u: seq<int>)
    ensures 1 <= |u| <= 2
    ensures forall k :: 0 <= k < |u| ==> 0 <= u[k] < 0x1_0000
    ensures |u| == 1 <==> (c as int) < 0x1_0000
  {
    var v := c as int;
    if v < 0x1_0000 then [v]
    else [0xD800 + (v - 0x1_0000) / 0x400, 0xDC00 + (v - 0x1_0000) % 0x400]
  }

  /** A string as JavaScript sees it: `str.length` is the length and `charCodeAt(i)` the elements. */
  function Utf16(s: string): (u: seq<int>)
    ensures |u| >= |s|
    ensures forall k :: 0 <= k < |u| ==> 0 <= u[k] < 0x1_0000
  {
    if s == [] then [] else CodeUnits(s[0]) + Utf16(s[1..])
  }

  // ---------------------------------------------------------------- the hash

  /** ECMAScript ToInt32 of an integral number: the congruent value in [-2^31, 2^31). */
  function ToInt32(x: int): (r: int)
    ensures -Two31 <= r < Two31
    ensures r % Two32 == x % Two32
  {
    var m := x % Two32;
    if m >= Two31 then m - Two32 else m
  }

  /** `x << 5`: a 32-bit integer congruent to 32 x modulo 2^32. */
  function ShiftLeft5(x: int): (r: int)
    ensures -Two31 <= r < Two31
    ensures r % Two32 == (32 * x) % Two32
  {
    ShiftCongruent(x);
    ToInt32(ToInt32(x) * 32)
  }

  /** Shifting the 32-bit conversion of `x` is shifting `x`, modulo 2^32. */
  lemma ShiftCongruent(x: int)
    ensures (ToInt32(x) * 32) % Two32 == (32 * x) % Two32
  {
    var a := ToInt32(x);
    var q, qa := x / Two32, a / Two32;
    assert x == Two32 * q + x % Two32;
    assert a == Two32 * qa + x % Two32;
    assert a * 32 == 32 * x + Two32 * (32 * (qa - q));
    ModTwo32Shift(32 * x, 32 * (qa - q));
  }

  lemma ModTwo32Shift(x: int, k: int)
    ensures (x + Two32 * k) % Two32 == x % Two32
  {
  }

  /**
   * `x & 0x7fffffff`: the low 31 bits of the two's-complement representation of ToInt32(x),
   * which is reduction modulo 2^31.
   */
  function Mask31(x: int): (r: int)
    ensures r == x % Two31
  {
    Congruent31(ToInt32(x), x);
    ToInt32(x) % Two31
  }

  /**
   * The running value of `hash` after the loop body has run once per code unit; reduced
   * modulo 2^31 it is the times-33 hash of the code units read so far.
   */
  function JsHashRun(units: seq<int>): (h: int)
    ensures h % Two31 == DjbHash(units)
  {
    if units == [] then HashSeed
    else
      var h := JsHashRun(units[..|units| - 1]);
      StepCongruence(h, units[|units| - 1]);
      h + (ShiftLeft5(h) + units[|units| - 1])
  }

  /** The reference definition: h := 33 h + c (mod 2^31), starting from 5381. */
  function DjbHash(units: seq<int>): (h: int)
    ensures 0 <= h < Two31
  {
    if units == [] then HashSeed
    else (33 * DjbHash(units[..|units| - 1]) + units[|units| - 1]) % Two31
  }

  lemma ModTwo31Shift(x: int, k: int)
    ensures (x + Two31 * k) % Two31 == x % Two31
  {
  }

  /** Being congruent modulo 2^32 implies being congruent modulo 2^31. */
  lemma Congruent31(x: int, y: int)
    requires x % Two32 == y % Two32
    ensures x % Two31 == y % Two31
  {
    var qx, qy := x / Two32, y / Two32;
    assert x == y + Two31 * (2 * (qx - qy));
    ModTwo31Shift(y, 2 * (qx - qy));
  }

  /** One loop step multiplies by 33 and adds the code unit, modulo 2^31. */
  lemma StepCongruence(h: int, c: int)
    ensures (h + (ShiftLeft5(h) + c)) % Two31 == (33 * (h % Two31) + c) % Two31
  {
    var a := ToInt32(h);
    Congruent31(a, h);
    var s := ShiftLeft5(h);
    Congruent31(s, a * 32);
    var q := h / Two31;
    assert h == Two31 * q + h % Two31;
    var qa := a / Two31;
    assert a == Two31 * qa + h % Two31;
    var qs := s / Two31;
    assert s == Two31 * qs + (a * 32) % Two31;
    var qm := (a * 32) / Two31;
    assert a * 32 == Two31 * qm + (a * 32) % Two31;
    assert h + (s + c) == 33 * (h % Two31) + c + Two31 * (q + qs - qm + 32 * qa);
    ModTwo31Shift(33 * (h % Two31) + c, q + qs - qm + 32 * qa);
  }

  /**
   * Each step moves `hash` by a 32-bit value plus a code unit, so for keys of up to 2^21
   * code units the running sum stays within the integers a JavaScript number holds exactly.
   */
  lemma {:induction false} JsHashBounded(units: seq<int>)
    requires forall k :: 0 <= k < |units| ==> 0 <= units[k] < 0x1_0000
    ensures HashSeed - |units| * Two31 <= JsHashRun(units) <= HashSeed + |units| * (Two31 + 0xFFFF)
    ensures |units| <= 0x20_0000 ==> -Two53 < JsHashRun(units) < Two53
  {
    if units != [] {
      JsHashBounded(units[..|units| - 1]);
    }
  }

  /** `getGtk(url, skey)`: the loop over the key's code units, then the 31-bit mask. */
  method GetGtk(cookie: string, skey: Option<string>, hostname: Option<string>) returns (gtk: int)
    ensures 0 <= gtk < Two31
    ensures gtk == DjbHash(Utf16(SelectKey(cookie, skey, hostname)))
  {
    var str := Utf16(SelectKey(cookie, skey, hostname));
    var hash := HashSeed;
    for i := 0 to |str|
      invariant hash == JsHashRun(str[..i])
    {
      assert str[..i + 1][..i] == str[..i];
      hash := hash + (ShiftLeft5(hash) + str[i]);
    }
    assert str[..|str|] == str;
    gtk := Mask31(hash);
  }

  /** The empty key hashes to the seed. */
  lemma EmptyKeyHash()
    ensures DjbHash(Utf16("")) == 5381
  {
  }
}
