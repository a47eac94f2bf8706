/**
 * Rust's `str::lines` as the crate's toolchain defines it: the text is split at every
 * `'\n'` (`split_terminator`, which yields no empty piece after a final `'\n'`), and one
 * trailing `'\r'` is removed from each piece.
 */
module Lines {
  import opened Common

  const LF: char := '\n'
  const CR: char := '\r'

  /** The pieces of `s` between `'\n'` separators, as `str::split('\n')` yields them. */
  function Split(s: string): (r: seq<string>)
    ensures |r| >= 1
    decreases |s|
  {
    if s == [] then [[]]
    else
      var rest := Split(s[1..]);
      if s[0] == LF then [[]] + rest
      else [[s[0]] + rest[0]] + rest[1..]
  }

  /** Concatenates `pieces` with a `'\n'` between neighbours. */
  function Join(pieces: seq<string>): string
  {
    if |pieces| <= 1 then (if pieces == [] then [] else pieces[0])
    else pieces[0] + [LF] + Join(pieces[1..])
  }

  /** `str::split_terminator('\n')`: `Split` without an empty final piece. */
  function SplitTerminator(s: string): seq<string>
  {
    var p := Split(s);
    if p[|p| - 1] == [] then p[..|p| - 1] else p
  }

  /** One trailing carriage return removed. */
  function StripCr(line: string): string
  {
    if line != [] && line[|line| - 1] == CR then line[..|line| - 1] else line
  }

  /** `str::lines`. */
  function Lines(s: string): seq<string>
  {
    var pieces := SplitTerminator(s);
    seq(|pieces|, i requires 0 <= i < |pieces| => StripCr(pieces[i]))
  }

  /** `str::lines().last()`. */
  function LastLine(s: string): Option<string>
  {
    var lines := Lines(s);
    if lines == [] then None else Some(lines[|lines| - 1])
  }

  /** `s` with one final `'\n'` removed. */
  function Chomp(s: string): string
  {
    if s != [] && s[|s| - 1] == LF then s[..|s| - 1] else s
  }

  /** Splitting loses nothing: the pieces hold no separator and joining them gives `s` back. */
  lemma {:induction false} JoinSplit(s: string)
    ensures Join(Split(s)) == s
    ensures forall i :: 0 <= i < |Split(s)| ==> LF !in Split(s)[i]
  {
    if s != [] {
      var rest := Split(s[1..]);
      JoinSplit(s[1..]);
      if s[0] == LF {
        assert Split(s)[1..] == rest;
        assert Join(Split(s)) == [] + [LF] + Join(rest);
      } else {
        assert Split(s)[1..] == rest[1..];
        if |rest| > 1 {
          assert Join(rest) == rest[0] + [LF] + Join(rest[1..]);
        }
      }
      assert [s[0]] + s[1..] == s;
    }
  }

  /** Splitting undoes joining pieces that hold no separator. */
  lemma {:induction false} SplitJoin(pieces: seq<string>)
    requires |pieces| >= 1
    requires forall i :: 0 <= i < |pieces| ==> LF !in pieces[i]
    ensures Split(Join(pieces)) == pieces
  {
    if |pieces| == 1 {
      NoSeparator(pieces[0]);
    } else {
      SplitJoin(pieces[1..]);
      var tail := [LF] + Join(pieces[1..]);
      assert Join(pieces) == pieces[0] + tail;
      SplitPrefix(pieces[0], tail);
      assert tail[1..] == Join(pieces[1..]);
      assert tail != [] && tail[0] == LF;
      assert Split(tail) == [[]] + Split(tail[1..]);
      assert Split(tail)[0] == [] && Split(tail)[1..] == pieces[1..];
      assert pieces[0] + [] == pieces[0];
      assert [pieces[0]] + pieces[1..] == pieces;
    }
  }

  lemma {:induction false} NoSeparator(s: string)
    requires LF !in s
    ensures Split(s) == [s]
  {
    if s != [] {
      NoSeparator(s[1..]);
      assert [s[0]] + s[1..] == s;
    }
  }

  /** A separator-free prefix glues onto the first piece of what follows it. */
  lemma {:induction false} SplitPrefix(u: string, t: string)
    requires LF !in u
    ensures Split(u + t) == [u + Split(t)[0]] + Split(t)[1..]
  {
    if u != [] {
      SplitPrefix(u[1..], t);
      assert (u + t)[1..] == u[1..] + t;
      var rest := Split(u[1..] + t);
      assert rest[0] == u[1..] + Split(t)[0];
      assert rest[1..] == Split(t)[1..];
      assert [u[0]] + (u[1..] + Split(t)[0]) == u + Split(t)[0];
    } else {
      assert u + t == t;
      assert u + Split(t)[0] == Split(t)[0];
      assert Split(t) == [Split(t)[0]] + Split(t)[1..];
    }
  }

  /** Splitting the text before a final `'\n'` gives every piece but the empty last one. */
  lemma {:induction false} SplitNewlineEnd(t: string)
    ensures Split(t + [LF]) == Split(t) + [[]]
  {
    if t == [] {
      assert Split([LF]) == [[]] + Split([]);
    } else {
      SplitNewlineEnd(t[1..]);
      assert (t + [LF])[1..] == t[1..] + [LF];
    }
  }

  /** The last piece of `Split(t)` is the text after the last `'\n'` of `t`. */
  lemma {:induction false} SplitLast(t: string, k: nat)
    requires k <= |t|
    requires LF !in t[k..]
    requires k == 0 || t[k - 1] == LF
    ensures Split(t)[|Split(t)| - 1] == t[k..]
  {
    if k == 0 {
      assert t[0..] == t;
      NoSeparator(t);
    } else {
      SplitLast(t[1..], k - 1);
      assert t[1..][k - 1..] == t[k..];
      var rest := Split(t[1..]);
      if t[0] != LF {
        assert k >= 2 && t[1..][k - 2] == LF;
        JoinSplit(t[1..]);
        assert |rest| >= 2;
      }
    }
  }

  /**
   * The last line of non-empty `s` is the text after the last `'\n'` of `s`, once one final
   * `'\n'` is removed, without a trailing `'\r'`; empty `s` has no last line.
   */
  lemma LastLineAt(s: string, k: nat)
    requires s != []
    requires k <= |Chomp(s)| && LF !in Chomp(s)[k..]
    requires k == 0 || Chomp(s)[k - 1] == LF
    ensures LastLine(s) == Some(StripCr(Chomp(s)[k..]))
  {
    var t := Chomp(s);
    SplitLast(t, k);
    if s[|s| - 1] == LF {
      assert s == t + [LF];
      SplitNewlineEnd(t);
      assert SplitTerminator(s) == Split(t);
    } else {
      assert t == s;
      assert k < |s|;
      assert SplitTerminator(s) == Split(t);
    }
  }

  /** Only the empty text has no lines. */
  lemma LastLineNone(s: string)
    ensures LastLine(s) == None <==> s == []
  {
    if s != [] {
      var t := Chomp(s);
      var k := LastSeparatorEnd(t);
      LastLineAt(s, k);
    }
  }

  /** The last line is a single line: it holds no `'\n'`. */
  lemma LastLineHasNoNewline(s: string)
    requires LastLine(s).Some?
    ensures LF !in LastLine(s).value
  {
    LastLineNone(s);
    var k := LastSeparatorEnd(Chomp(s));
    LastLineAt(s, k);
  }

  /** The position just after the last `'\n'` of `t`, or 0 when there is none. */
  function LastSeparatorEnd(t: string): (k: nat)
    ensures k <= |t| && LF !in t[k..]
    ensures k == 0 || t[k - 1] == LF
  {
    if t == [] then 0
    else if t[|t| - 1] == LF then |t|
    else
      var k := LastSeparatorEnd(t[..|t| - 1]);
      assert t[k..] == t[..|t| - 1][k..] + [t[|t| - 1]];
      k
  }

  /** A version banner with a blank first line and a final newline yields its version line. */
  lemma BannerLastLine()
    ensures LastLine("\nfoo\nv0.8.1+commit\n") == Some("v0.8.1+commit")
  {
    var s := "\nfoo\nv0.8.1+commit\n";
    assert Chomp(s) == "\nfoo\nv0.8.1+commit";
    LastLineAt(s, 5);
  }

  /** A blank line before the final newline is the last line: empty lines are not skipped. */
  lemma BlankLastLine()
    ensures LastLine("a\n\n") == Some("")
  {
    assert Chomp("a\n\n") == "a\n";
    LastLineAt("a\n\n", 2);
  }

  /** A `"\r\n"` terminator is removed entirely. */
  lemma CrLfLastLine()
    ensures LastLine("x\r\n") == Some("x")
  {
    assert Chomp("x\r\n") == "x\r";
    LastLineAt("x\r\n", 0);
  }
}
