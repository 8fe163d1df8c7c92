/**
 * NUL-terminated character buffers as the client's C code sees them:
 * reading a buffer as a C string, `strncpy`, and the copy-then-terminate
 * idiom `strncpy(buf, s, n); buf[n - 1] = '\0';` that the configuration
 * resolver uses to cut a string to a fixed capacity.
 *
 * Every `char` here stands for one byte of a C `char` buffer, so lengths and
 * capacities count bytes; a multi-byte UTF-8 character is several `char`s.
 */
module CStrings {

  const NUL: char := '\0'

  /** The first `n` characters of `s`, or all of `s` when it is shorter. */
  function Truncate(s: string, n: nat): (r: string)
    ensures |r| <= n && r <= s
    ensures |s| <= n ==> r == s
    ensures |s| > n ==> |r| == n
  {
    if |s| <= n then s else s[..n]
  }

  /**
   * The string a C reader sees in the buffer `s`: every character before the
   * first NUL (or all of `s` when it holds none).
   */
  function CString(s: seq<char>): (r: string)
    ensures r <= s
    ensures NUL !in r
    ensures |r| < |s| ==> s[|r|] == NUL
  {
    if s == [] || s[0] == NUL then [] else [s[0]] + CString(s[1..])
  }

  /** A buffer whose first NUL is at index `k` reads as its first `k` characters. */
  lemma CStringAt(s: seq<char>, k: nat)
    requires k < |s| && s[k] == NUL
    requires NUL !in s[..k]
    ensures CString(s) == s[..k]
  {
  }

  /**
   * The `n` characters that `strncpy(dst, src, n)` stores into `dst`: the C
   * string of `src` cut to `n` characters, then NUL padding up to `n`.
   */
  function Strncpy(src: seq<char>, n: nat): (r: seq<char>)
    ensures |r| == n
    ensures r[..|Truncate(CString(src), n)|] == Truncate(CString(src), n)
    ensures forall i :: |Truncate(CString(src), n)| <= i < n ==> r[i] == NUL
  {
    var s := CString(src);
    if |s| >= n then s[..n] else s + seq(n - |s|, _ => NUL)
  }

  /**
   * A buffer filled by `strncpy(dst, src, n)` reads as the C string of `src`
   * cut to `n` characters (unterminated when that string has `n` or more).
   */
  lemma StrncpyReads(src: seq<char>, n: nat)
    ensures CString(Strncpy(src, n)) == Truncate(CString(src), n)
  {
    var s := CString(src);
    var w := Strncpy(src, n);
    if |s| < n {
      assert w[..|s|] == s;
      CStringAt(w, |s|);
    } else {
      assert w == s[..n];
      assert NUL !in w by {
        forall i | 0 <= i < n ensures w[i] != NUL {
          assert w[i] == s[i];
        }
      }
    }
  }

  /**
   * `strncpy(buf, src, cap + 1); buf[cap] = '\0';` leaves a buffer that reads
   * as the C string of `src` cut to `cap` characters.
   */
  lemma {:induction false} CopyThenTerminate(src: seq<char>, cap: nat)
    ensures CString(Strncpy(src, cap + 1)[cap := NUL]) == Truncate(CString(src), cap)
  {
    var t := Truncate(CString(src), cap);
    var w := Strncpy(src, cap + 1)[cap := NUL];
    var k := |t|;
    assert |Truncate(CString(src), cap + 1)| >= k;
    assert w[..k] == t by {
      forall i | 0 <= i < k ensures w[i] == t[i] {
        assert Truncate(CString(src), cap + 1)[i] == CString(src)[i];
      }
    }
    assert w[k] == NUL;
    CStringAt(w, k);
  }
}
