/** Name trimming and validation shared by every create_patient handler. */
module Names {
  import opened Outcomes

  /** Rust's char::is_whitespace: the characters with the Unicode White_Space property. */
  predicate IsWhitespace(c: char) {
    || ('\t' <= c <= '\r')
    || c == ' '
    || c == '\U{85}'
    || c == '\U{A0}'
    || c == '\U{1680}'
    || ('\U{2000}' <= c <= '\U{200A}')
    || c == '\U{2028}'
    || c == '\U{2029}'
    || c == '\U{202F}'
    || c == '\U{205F}'
    || c == '\U{3000}'
  }

  /** Empty, or made of whitespace only. */
  predicate IsBlank(s: string) {
    forall i :: 0 <= i < |s| ==> IsWhitespace(s[i])
  }

  /** str::trim_start: drops the longest whitespace prefix. */
  function TrimStart(s: string): (r: string)
    ensures |r| <= |s| && r == s[|s| - |r|..]
    ensures IsBlank(s[..|s| - |r|])
    ensures r != [] ==> !IsWhitespace(r[0])
  {
    if s != [] && IsWhitespace(s[0]) then TrimStart(s[1..]) else s
  }

  /** str::trim_end: drops the longest whitespace suffix. */
  function TrimEnd(s: string): (r: string)
    ensures |r| <= |s| && r == s[..|r|]
    ensures IsBlank(s[|r|..])
    ensures r != [] ==> !IsWhitespace(r[|r| - 1])
  {
    if s != [] && IsWhitespace(s[|s| - 1]) then
      var r := TrimEnd(s[..|s| - 1]);
      assert s[|r|..] == s[..|s| - 1][|r|..] + [s[|s| - 1]];
      r
    else
      s
  }

  /** str::trim: the part of s between its leading and trailing whitespace. */
  function Trim(s: string): (r: string)
    ensures |r| <= |s|
    ensures r == [] <==> IsBlank(s)
    ensures r != [] ==> !IsWhitespace(r[0]) && !IsWhitespace(r[|r| - 1])
  {
    var t := TrimStart(s);
    var r := TrimEnd(t);
    assert r != [] ==> r[0] == t[0];
    assert r == [] ==> IsBlank(s) by {
      if r == [] {
        assert IsBlank(t) && IsBlank(s[..|s| - |t|]);
        assert s == s[..|s| - |t|] + t;
      }
    }
    r
  }

  /** Trim(s) is a contiguous part of s with only whitespace before and after it. */
  lemma TrimSplits(s: string) returns (i: nat)
    ensures i + |Trim(s)| <= |s|
    ensures s == s[..i] + Trim(s) + s[i + |Trim(s)|..]
    ensures IsBlank(s[..i]) && IsBlank(s[i + |Trim(s)|..])
  {
    var t := TrimStart(s);
    i := |s| - |t|;
    var r := TrimEnd(t);
    assert Trim(s) == r;
    TrimEndSplits(t);
    assert t == s[i..];
    assert s[i..i + |r|] == t[..|r|] == r;
    assert s[i + |r|..] == t[|r|..];
    SplitAt(s, i, i + |r|);
  }

  /** TrimEnd(t) is a prefix of t followed by whitespace only. */
  lemma TrimEndSplits(t: string)
    ensures t[..|TrimEnd(t)|] == TrimEnd(t)
    ensures IsBlank(t[|TrimEnd(t)|..])
  {
  }

  lemma SplitAt(s: string, i: nat, j: nat)
    requires i <= j <= |s|
    ensures s == s[..i] + s[i..j] + s[j..]
  {
  }

  /** A blank prefix is dropped by TrimStart up to the first non-blank character. */
  lemma {:induction false} TrimStartPadded(a: string, x: string)
    requires IsBlank(a)
    requires x != [] ==> !IsWhitespace(x[0])
    ensures TrimStart(a + x) == x
    decreases |a|
  {
    if a != [] {
      assert (a + x)[1..] == a[1..] + x;
      TrimStartPadded(a[1..], x);
    } else {
      assert a + x == x;
    }
  }

  /** A blank suffix is dropped by TrimEnd back to the last non-blank character. */
  lemma {:induction false} TrimEndPadded(x: string, b: string)
    requires IsBlank(b)
    requires x != [] ==> !IsWhitespace(x[|x| - 1])
    ensures TrimEnd(x + b) == x
    decreases |b|
  {
    if b != [] {
      assert (x + b)[..|x + b| - 1] == x + b[..|b| - 1];
      TrimEndPadded(x, b[..|b| - 1]);
    } else {
      assert x + b == x;
    }
  }

  /** Trim is determined by its core: padding a string with no outer whitespace by blanks on
      either side and trimming gives the string back. */
  lemma TrimPadded(a: string, core: string, b: string)
    requires IsBlank(a) && IsBlank(b)
    requires core != [] ==> !IsWhitespace(core[0]) && !IsWhitespace(core[|core| - 1])
    ensures Trim(a + core + b) == core
  {
    if core == [] {
      assert a + core + b == a + b;
      assert IsBlank(a + b);
    } else {
      assert a + core + b == a + (core + b);
      TrimStartPadded(a, core + b);
      TrimEndPadded(core, b);
    }
  }

  /** Trimming twice is trimming once. */
  lemma TrimIdempotent(s: string)
    ensures Trim(Trim(s)) == Trim(s)
  {
    var t := Trim(s);
    assert t != [] ==> !IsWhitespace(t[0]) && !IsWhitespace(t[|t| - 1]);
  }

  /** The worked example: "  Ada " trims to "Ada". */
  lemma TrimAda()
    ensures Trim("  Ada ") == "Ada"
  {
    assert "  Ada " == "  " + "Ada" + " ";
    TrimPadded("  ", "Ada", " ");
  }

  /** The check every create_patient makes before touching the filesystem. */
  function ValidateNames(firstName: string, lastName: string): (r: Result<(string, string)>)
    ensures r.Err? <==> IsBlank(firstName) || IsBlank(lastName)
    ensures r.Err? ==> r.status == InvalidArgument(NamesRequired)
    ensures r.Ok? ==> r.value.0 != [] && r.value.1 != []
    ensures r.Ok? ==> r.value == (Trim(firstName), Trim(lastName))
  {
    var first := Trim(firstName);
    var last := Trim(lastName);
    if first == [] || last == [] then Err(InvalidArgument(NamesRequired)) else Ok((first, last))
  }
}
