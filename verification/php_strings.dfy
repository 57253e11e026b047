/** The PHP string built-ins the Redis form validation relies on: `explode`,
    `implode`, `trim` and `empty`, for single-character separators. */
module PhpStrings {
  import opened Ascii

  /** `explode(sep, s)`: the pieces of `s` between occurrences of `sep`. PHP
      returns one piece more than there are separators, so the empty string
      explodes to `[""]` and a trailing separator yields a trailing `""`. */
  function Explode(s: string, sep: char): (r: seq<string>)
    ensures |r| >= 1
    decreases |s|
  {
    if |s| == 0 then [""]
    else
      var rest := Explode(s[1..], sep);
      if s[0] == sep then [""] + rest
      else [[s[0]] + rest[0]] + rest[1..]
  }

  /** There is one piece more than there are separators, and no piece holds
      a separator. */
  lemma {:induction false} ExplodeSpec(s: string, sep: char)
    ensures |Explode(s, sep)| == multiset(s)[sep] + 1
    ensures forall k :: 0 <= k < |Explode(s, sep)| ==> sep !in Explode(s, sep)[k]
    decreases |s|
  {
    if |s| > 0 {
      ExplodeSpec(s[1..], sep);
      assert s == [s[0]] + s[1..];
      var rest := Explode(s[1..], sep);
      var r := Explode(s, sep);
      if s[0] != sep {
        assert r[0] == [s[0]] + rest[0];
        forall k | 0 <= k < |r|
          ensures sep !in r[k]
        {
          if k > 0 {
            assert r[k] == rest[k];
          }
        }
      }
    }
  }

  /** `implode(glue, parts)`: the parts with `glue` between each neighbouring pair. */
  function Implode(glue: string, parts: seq<string>): string
    decreases |parts|
  {
    if |parts| == 0 then ""
    else if |parts| == 1 then parts[0]
    else parts[0] + glue + Implode(glue, parts[1..])
  }

  /** Joining the pieces of `explode` with the separator gives back the input. */
  lemma {:induction false} ImplodeExplode(s: string, sep: char)
    ensures Implode([sep], Explode(s, sep)) == s
    decreases |s|
  {
    if |s| > 0 {
      var rest := Explode(s[1..], sep);
      ImplodeExplode(s[1..], sep);
      assert s == [s[0]] + s[1..];
      if s[0] == sep {
        assert Explode(s, sep) == [""] + rest;
        assert Implode([sep], [""] + rest) == "" + [sep] + Implode([sep], rest);
      } else {
        assert Explode(s, sep) == [[s[0]] + rest[0]] + rest[1..];
        if |rest| == 1 {
          assert Implode([sep], rest) == rest[0];
        } else {
          assert rest == [rest[0]] + rest[1..];
          assert Implode([sep], rest) == rest[0] + [sep] + Implode([sep], rest[1..]);
        }
      }
    }
  }

  /** `explode` yields exactly one piece iff the separator does not occur. */
  lemma ExplodeSingle(s: string, sep: char)
    ensures |Explode(s, sep)| == 1 <==> sep !in s
    ensures sep !in s ==> Explode(s, sep) == [s]
  {
    ExplodeSpec(s, sep);
    if sep !in s {
      var r := Explode(s, sep);
      ImplodeExplode(s, sep);
      assert Implode([sep], r) == r[0];
    }
  }

  /** `ltrim`: drops the leading characters PHP trims by default. */
  function TrimLeft(s: string): (r: string)
    ensures |r| <= |s|
    decreases |s|
  {
    if |s| > 0 && IsTrimChar(s[0]) then TrimLeft(s[1..]) else s
  }

  /** `ltrim` cuts exactly the leading run of trimmable characters. */
  lemma {:induction false} TrimLeftSpec(s: string)
    ensures var r := TrimLeft(s);
      && r == s[|s| - |r|..]
      && (forall k :: 0 <= k < |s| - |r| ==> IsTrimChar(s[k]))
      && (|r| > 0 ==> !IsTrimChar(r[0]))
    decreases |s|
  {
    if |s| > 0 && IsTrimChar(s[0]) {
      TrimLeftSpec(s[1..]);
    }
  }

  /** `rtrim`: drops the trailing characters PHP trims by default. */
  function TrimRight(s: string): (r: string)
    ensures |r| <= |s|
    decreases |s|
  {
    if |s| > 0 && IsTrimChar(s[|s| - 1]) then TrimRight(s[..|s| - 1]) else s
  }

  /** `rtrim` cuts exactly the trailing run of trimmable characters. */
  lemma {:induction false} TrimRightSpec(s: string)
    ensures var r := TrimRight(s);
      && r == s[..|r|]
      && (forall k :: |r| <= k < |s| ==> IsTrimChar(s[k]))
      && (|r| > 0 ==> !IsTrimChar(r[|r| - 1]))
    decreases |s|
  {
    if |s| > 0 && IsTrimChar(s[|s| - 1]) {
      TrimRightSpec(s[..|s| - 1]);
    }
  }

  /** `trim`: `rtrim` after `ltrim`. */
  function Trim(s: string): (r: string)
    ensures |r| <= |s|
  {
    TrimRight(TrimLeft(s))
  }

  /** `trim` leaves the infix of `s` between its leading and its trailing
      runs of trimmable characters; the result neither starts nor ends with
      one. */
  lemma TrimSpec(s: string)
    ensures var r := Trim(s);
      var i := |s| - |TrimLeft(s)|;
      && i + |r| <= |s| && r == s[i..i + |r|]
      && (forall k :: 0 <= k < i ==> IsTrimChar(s[k]))
      && (forall k :: i + |r| <= k < |s| ==> IsTrimChar(s[k]))
      && (|r| > 0 ==> !IsTrimChar(r[0]) && !IsTrimChar(r[|r| - 1]))
  {
    var l := TrimLeft(s);
    TrimLeftSpec(s);
    TrimRightSpec(l);
    var r := TrimRight(l);
    var i := |s| - |l|;
    assert r == s[i..][..|r|];
    forall k | i + |r| <= k < |s|
      ensures IsTrimChar(s[k])
    {
      assert l[k - i] == s[k];
    }
  }

  /** Trimming twice is trimming once. */
  lemma TrimIdempotent(s: string)
    ensures Trim(Trim(s)) == Trim(s)
  {
    TrimSpec(s);
    var t := Trim(s);
    assert TrimLeft(t) == t;
    assert TrimRight(t) == t;
  }

  /** `trim` leaves a string alone exactly when neither end is trimmable. */
  lemma TrimUntouched(s: string)
    ensures Trim(s) == s <==> |s| == 0 || (!IsTrimChar(s[0]) && !IsTrimChar(s[|s| - 1]))
  {
    TrimSpec(s);
    if |s| > 0 && !IsTrimChar(s[0]) && !IsTrimChar(s[|s| - 1]) {
      assert TrimLeft(s) == s;
      assert TrimRight(s) == s;
    }
  }

  /** PHP `empty()` on a string: only `""` and `"0"` are empty. */
  predicate IsEmpty(s: string) {
    s == "" || s == "0"
  }
}
