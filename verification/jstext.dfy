/** `String.prototype.trim` of ECMAScript: removes leading and trailing
    WhiteSpace and LineTerminator code points. */
module JsText {

  /** WhiteSpace (TAB, VT, FF, ZWNBSP and the Space_Separator category)
      and LineTerminator (LF, CR, LINE SEPARATOR, PARAGRAPH SEPARATOR). */
  predicate IsTrimmable(c: char) {
    var n := c as int;
    || n == 0x09 || n == 0x0B || n == 0x0C || n == 0xFEFF
    || n == 0x20 || n == 0xA0 || n == 0x1680 || 0x2000 <= n <= 0x200A
    || n == 0x202F || n == 0x205F || n == 0x3000
    || n == 0x0A || n == 0x0D || n == 0x2028 || n == 0x2029
  }

  /** Drops the leading trimmable characters: the result is the suffix of
      `s` that starts at its first other character. */
  function TrimStart(s: string): (r: string)
    ensures |r| <= |s| && r == s[|s| - |r|..]
    ensures forall i :: 0 <= i < |s| - |r| ==> IsTrimmable(s[i])
    ensures |r| == 0 || !IsTrimmable(r[0])
  {
    if |s| > 0 && IsTrimmable(s[0]) then TrimStart(s[1..]) else s
  }

  /** Drops the trailing trimmable characters: the result is the prefix of
      `s` that ends at its last other character. */
  function TrimEnd(s: string): (r: string)
    ensures |r| <= |s| && r == s[..|r|]
    ensures forall i :: |r| <= i < |s| ==> IsTrimmable(s[i])
    ensures |r| == 0 || !IsTrimmable(r[|r| - 1])
  {
    if |s| > 0 && IsTrimmable(s[|s| - 1]) then TrimEnd(s[..|s| - 1]) else s
  }

  /** `s.trim()`: a contiguous slice of `s` whose ends are not trimmable,
      with only trimmable characters cut away around it. */
  function Trim(s: string): (r: string)
    ensures |r| == 0 || (!IsTrimmable(r[0]) && !IsTrimmable(r[|r| - 1]))
  {
    TrimEnd(TrimStart(s))
  }

  /** The text is empty after trimming exactly when it held nothing but
      trimmable characters. */
  lemma TrimEmptyIff(s: string)
    ensures Trim(s) == [] <==> forall i :: 0 <= i < |s| ==> IsTrimmable(s[i])
  {
    var a := TrimStart(s);
    if Trim(s) == [] {
      assert a == [];
    }
  }

  /** The kept slice: what `trim` returns is `s[lo..lo + |Trim(s)|]`,
      where `lo` counts the leading characters cut away. */
  lemma TrimIsSlice(s: string)
    ensures var lo := |s| - |TrimStart(s)|;
      && lo + |Trim(s)| <= |s|
      && Trim(s) == s[lo..lo + |Trim(s)|]
  {
    var a := TrimStart(s);
    var lo := |s| - |a|;
    var r := TrimEnd(a);
    PrefixOfSuffix(s, lo, a, r);
  }

  /** A prefix of the suffix of `s` from `lo` is the slice of `s` from `lo`. */
  lemma PrefixOfSuffix<T>(s: seq<T>, lo: nat, a: seq<T>, r: seq<T>)
    requires lo <= |s| && a == s[lo..]
    requires |r| <= |a| && r == a[..|r|]
    ensures lo + |r| <= |s| && r == s[lo..lo + |r|]
  {
  }

  /** Only trimmable characters lie outside the kept slice. */
  lemma TrimCutsOnlyTrimmable(s: string)
    ensures var lo := |s| - |TrimStart(s)|;
      && lo + |Trim(s)| <= |s|
      && (forall i :: 0 <= i < lo ==> IsTrimmable(s[i]))
      && (forall i :: lo + |Trim(s)| <= i < |s| ==> IsTrimmable(s[i]))
  {
    var a := TrimStart(s);
    var lo := |s| - |a|;
    var r := TrimEnd(a);
    assert a == s[lo..];
    forall i | lo + |r| <= i < |s| ensures IsTrimmable(s[i]) {
      assert IsTrimmable(a[i - lo]);
    }
  }

  /** Trimming twice is trimming once. */
  lemma TrimIdempotent(s: string)
    ensures Trim(Trim(s)) == Trim(s)
  {
  }
}
