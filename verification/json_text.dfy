/**
 * The text form of a member list as `JSON.stringify` writes an array of
 * integers (`[1,-2,30]`, no spaces), and the substring test that a
 * `LIKE '%p%'` pattern without wildcard characters performs on it.
 */
module JsonText {

  function DigitChar(d: nat): (c: char)
    requires d < 10
    ensures '0' <= c <= '9'
  {
    "0123456789"[d]
  }

  /** Decimal digits of `n`, most significant first, no leading zero. */
  function NatToString(n: nat): (s: string)
    ensures |s| >= 1
    decreases n
  {
    if n < 10 then [DigitChar(n)] else NatToString(n / 10) + [DigitChar(n % 10)]
  }

  /** Decimal text of an integer, as a template literal `${n}` renders it. */
  function IntToString(n: int): (s: string)
    ensures |s| >= 1
  {
    if n < 0 then "-" + NatToString(-n) else NatToString(n)
  }

  /** The elements of the list separated by commas. */
  function JoinIds(ids: seq<int>): string
  {
    if |ids| == 0 then ""
    else if |ids| == 1 then IntToString(ids[0])
    else IntToString(ids[0]) + "," + JoinIds(ids[1..])
  }

  /** `JSON.stringify(ids)` for a list of integers. */
  function EncodeIds(ids: seq<int>): (s: string)
    ensures |s| >= 2 && s[0] == '[' && s[|s| - 1] == ']'
  {
    "[" + JoinIds(ids) + "]"
  }

  predicate ContainsAt(text: string, needle: string, k: int)
  {
    0 <= k && k + |needle| <= |text| && text[k..k + |needle|] == needle
  }

  /** `text LIKE '%' || needle || '%'`, for a needle without `%` or `_`. */
  predicate Contains(text: string, needle: string)
  {
    exists k | 0 <= k <= |text| - |needle| :: ContainsAt(text, needle, k)
  }

  lemma ContainsInContext(a: string, b: string, c: string, needle: string)
    requires Contains(b, needle)
    ensures Contains(a + b + c, needle)
  {
    var k :| 0 <= k <= |b| - |needle| && ContainsAt(b, needle, k);
    var t := a + b + c;
    assert t[|a| + k..|a| + k + |needle|] == b[k..k + |needle|];
    assert ContainsAt(t, needle, |a| + k);
  }

  lemma PrefixContained(x: string, rest: string)
    ensures Contains(x + rest, x)
  {
    assert (x + rest)[0..|x|] == x;
    assert ContainsAt(x + rest, x, 0);
  }

  lemma JoinIdsUnfold(ids: seq<int>)
    requires |ids| > 1
    ensures JoinIds(ids) == IntToString(ids[0]) + ("," + JoinIds(ids[1..]))
  {
  }

  lemma {:induction false} JoinIdsContainsMember(ids: seq<int>, u: int)
    requires u in ids
    ensures Contains(JoinIds(ids), IntToString(u))
  {
    var x := IntToString(ids[0]);
    if |ids| == 1 {
      PrefixContained(x, "");
      assert x + "" == JoinIds(ids);
    } else {
      JoinIdsUnfold(ids);
      var rest := "," + JoinIds(ids[1..]);
      if ids[0] == u {
        PrefixContained(x, rest);
      } else {
        assert u in ids[1..];
        JoinIdsContainsMember(ids[1..], u);
        ContainsInContext(x + ",", JoinIds(ids[1..]), "", IntToString(u));
        assert x + "," + JoinIds(ids[1..]) + "" == x + rest;
      }
    }
  }

  /**
   * The decimal text of every member occurs in the JSON text of the list,
   * so a `LIKE '%id%'` pre-filter never drops a row that lists `id`.
   */
  lemma EncodedIdsContainMember(ids: seq<int>, u: int)
    requires u in ids
    ensures Contains(EncodeIds(ids), IntToString(u))
  {
    JoinIdsContainsMember(ids, u);
    ContainsInContext("[", JoinIds(ids), "]", IntToString(u));
  }
}
