/** The C-string operations the bridge relies on: substring search (`strstr`),
    the length of a NUL-terminated buffer (`strlen`) and the `concat` helper.
    A C string is modelled by its contents before the terminating NUL. */
module CStrings {

  const NUL: char := '\0'

  /** Outcome of a call that may terminate the process. */
  datatype Alloc<T> = Joined(value: T) | Exit(code: int)

  /** `needle` occurs in `hay` starting at offset `i`. */
  predicate OccursAt(hay: string, needle: string, i: int)
  {
    0 <= i && i + |needle| <= |hay| && hay[i..i + |needle|] == needle
  }

  /** `strstr(hay, needle) != NULL`: scans `hay` left to right for `needle`. */
  predicate Occurs(hay: string, needle: string): (found: bool)
    ensures found ==> |needle| <= |hay|
    decreases |hay|
  {
    if needle <= hay then true
    else if hay == [] then false
    else Occurs(hay[1..], needle)
  }

  /** The scan finds `needle` exactly when it occurs at some offset. */
  lemma {:induction false} OccursIff(hay: string, needle: string)
    ensures Occurs(hay, needle) <==> exists i :: OccursAt(hay, needle, i)
    decreases |hay|
  {
    if needle <= hay {
      assert OccursAt(hay, needle, 0);
    } else if hay == [] {
    } else {
      OccursIff(hay[1..], needle);
      if exists i :: OccursAt(hay[1..], needle, i) {
        var i :| OccursAt(hay[1..], needle, i);
        assert hay[i + 1..i + 1 + |needle|] == hay[1..][i..i + |needle|];
        assert OccursAt(hay, needle, i + 1);
      }
      if exists i :: OccursAt(hay, needle, i) {
        var i :| OccursAt(hay, needle, i);
        assert hay[1..][i - 1..i - 1 + |needle|] == hay[i..i + |needle|];
        assert OccursAt(hay[1..], needle, i - 1);
      }
    }
  }

  /** Every string contains itself (so `strstr(token, token)` succeeds). */
  lemma OccursSelf(s: string)
    ensures Occurs(s, s)
  {
  }

  /** `strlen`: the contents of a buffer up to (not including) its first NUL. */
  function CStr(buf: seq<char>): (s: string)
    ensures s <= buf
    ensures NUL !in s
    ensures |s| < |buf| ==> buf[|s|] == NUL
    decreases |buf|
  {
    if buf == [] || buf[0] == NUL then [] else [buf[0]] + CStr(buf[1..])
  }

  /** `n` zero bytes, as left by `memset(buf, 0, n)`. */
  function Zeros(n: nat): (z: seq<char>)
    ensures |z| == n
    ensures forall i :: 0 <= i < n ==> z[i] == NUL
  {
    seq(n, _ => NUL)
  }

  /** A buffer holding `s`, its terminator and anything after reads back as `s`. */
  lemma {:induction false} CStrOfTerminated(s: string, rest: seq<char>)
    requires NUL !in s
    ensures CStr(s + [NUL] + rest) == s
    decreases |s|
  {
    if s == [] {
    } else {
      assert (s + [NUL] + rest)[1..] == s[1..] + [NUL] + rest;
      CStrOfTerminated(s[1..], rest);
    }
  }

  /** `concat`: allocates `|a| + |b| + 1` bytes and copies `a` then `b` into them;
      a failed allocation ends the process with status 1. */
  function Concat(a: string, b: string, allocOk: bool): (r: Alloc<string>)
    ensures r.Exit? <==> !allocOk
    ensures r.Exit? ==> r.code == 1
    ensures r.Joined? ==> |r.value| == |a| + |b| && r.value[..|a|] == a && r.value[|a|..] == b
  {
    if !allocOk then Exit(1) else Joined(a + b)
  }

  /** The joined string, read back with `strlen`, has the two lengths added,
      and its halves are the two arguments again. */
  lemma ConcatCStr(a: string, b: string)
    requires NUL !in a && NUL !in b
    ensures Concat(a, b, true).Joined?
    ensures CStr(Concat(a, b, true).value + [NUL]) == a + b
    ensures |CStr(Concat(a, b, true).value + [NUL])| == |a| + |b|
  {
    var r := Concat(a, b, true).value;
    assert r == a + b;
    assert NUL !in r by {
      forall i | 0 <= i < |r| ensures r[i] != NUL {
        if i < |a| { assert r[i] == a[i]; } else { assert r[i] == b[i - |a|]; }
      }
    }
    CStrOfTerminated(r, []);
    assert r + [NUL] + [] == r + [NUL];
  }
}
