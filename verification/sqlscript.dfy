/**
 * `splitSql` of the database bootstrap script: line comments are removed,
 * then the text is cut at every `;`, each piece trimmed, and the empty
 * pieces dropped. The splitter knows nothing of quoting.
 */
module SqlScript {
  import opened Common

  /** The characters at which a JavaScript `.` stops and a multi-line `$` matches. */
  predicate LineTerminator(c: char) {
    c == '\n' || c == '\r' || c == '\U{2028}' || c == '\U{2029}'
  }

  predicate StartsComment(s: string) {
    |s| >= 2 && s[0] == '-' && s[1] == '-'
  }

  /** No `--` anywhere in `s`. */
  predicate NoComment(s: string) {
    forall i :: 0 <= i < |s| - 1 ==> !(s[i] == '-' && s[i + 1] == '-')
  }

  /** `s` from its first line terminator on (empty when there is none). */
  function RestOfLine(s: string): (r: string)
    ensures |r| <= |s| && r == s[|s| - |r|..]
    ensures r == [] || LineTerminator(r[0])
    ensures s != [] && !LineTerminator(s[0]) ==> |r| < |s|
  {
    if s == [] || LineTerminator(s[0]) then s else RestOfLine(s[1..])
  }

  /**
   * `sql.replace(/--.*$/gm, "")`: scanning left to right, each `--` and
   * the rest of its line up to (not including) the line terminator is
   * removed.
   */
  function StripComments(s: string): (r: string)
    ensures |r| <= |s|
    ensures NoComment(r)
    ensures s != [] && !StartsComment(s) ==> r != [] && r[0] == s[0]
    ensures StartsComment(s) ==> r == [] || LineTerminator(r[0])
    decreases |s|
  {
    if StartsComment(s) then StripComments(RestOfLine(s))
    else if s == [] then []
    else
      var rest := StripComments(s[1..]);
      assert s[0] == '-' && rest != [] ==> rest[0] != '-' by {
        if s[0] == '-' && rest != [] && |s| >= 2 {
          assert s[1] != '-';
          assert !StartsComment(s[1..]);
        }
      }
      [s[0]] + rest
  }

  /** Text without `--` passes through unchanged. */
  lemma {:induction false} StripWithoutComment(s: string)
    requires NoComment(s)
    ensures StripComments(s) == s
  {
    if s != [] {
      assert NoComment(s[1..]) by {
        forall i | 0 <= i < |s[1..]| - 1 ensures !(s[1..][i] == '-' && s[1..][i + 1] == '-') {
          assert s[1..][i] == s[i + 1] && s[1..][i + 1] == s[i + 2];
        }
      }
      StripWithoutComment(s[1..]);
    }
  }

  /** A stretch of text without `--` keeps that property in every part of it. */
  lemma InfixNoComment(s: string, lo: int, hi: int)
    requires NoComment(s) && 0 <= lo <= hi <= |s|
    ensures NoComment(s[lo..hi])
  {
    var t := s[lo..hi];
    forall i | 0 <= i < |t| - 1 ensures !(t[i] == '-' && t[i + 1] == '-') {
      assert t[i] == s[lo + i] && t[i + 1] == s[lo + i + 1];
    }
  }

  /** The first piece of a split is a prefix of the text. */
  lemma {:induction false} SplitFirstIsPrefix(s: string, sep: char)
    ensures |Split(s, sep)[0]| <= |s| && Split(s, sep)[0] == s[..|Split(s, sep)[0]|]
  {
    if s != [] && s[0] != sep {
      SplitFirstIsPrefix(s[1..], sep);
    }
  }

  /** Cutting text without `--` gives pieces without `--`. */
  lemma {:induction false} SplitNoComment(s: string, sep: char)
    requires NoComment(s)
    ensures forall k :: 0 <= k < |Split(s, sep)| ==> NoComment(Split(s, sep)[k])
  {
    if s != [] {
      InfixNoComment(s, 1, |s|);
      assert s[1..|s|] == s[1..];
      SplitNoComment(s[1..], sep);
      if s[0] != sep {
        var rest := Split(s[1..], sep);
        SplitFirstIsPrefix(s[1..], sep);
        var p := [s[0]] + rest[0];
        forall i | 0 <= i < |p| - 1 ensures !(p[i] == '-' && p[i + 1] == '-') {
          if i == 0 {
            assert p[1] == rest[0][0] == s[1..][0] == s[1];
          } else {
            assert p[i] == rest[0][i - 1] && p[i + 1] == rest[0][i];
          }
        }
      }
    }
  }

  /** A trimmed piece is a part of the piece, so it keeps what the piece excludes. */
  lemma TrimKeeps(p: string, c: char)
    ensures c !in p ==> c !in Trim(p)
    ensures NoComment(p) ==> NoComment(Trim(p))
  {
    TrimShape(p);
    var k := |p| - |TrimStart(p)|;
    if NoComment(p) {
      InfixNoComment(p, k, k + |Trim(p)|);
    }
  }

  /**
   * `splitSql(sql)`: every statement is non-empty, holds no `;` and no
   * `--`, and starts and ends with a non-space character; the statements
   * are exactly the non-empty trimmed pieces between the `;`s of the
   * comment-stripped text, so there is at most one more than there are `;`s.
   */
  function SplitSql(sql: string): (r: seq<string>)
    ensures forall x :: x in r ==> x != "" && ';' !in x && NoComment(x)
    ensures forall x :: x in r ==> !IsSpace(x[0]) && !IsSpace(x[|x| - 1])
    ensures forall x :: x in r <==> x != "" && x in TrimAll(Split(StripComments(sql), ';'))
    ensures |r| <= Count(StripComments(sql), ';') + 1
  {
    var pieces := Split(StripComments(sql), ';');
    SplitNoComment(StripComments(sql), ';');
    TrimAllTrimmed(pieces);
    forall k | 0 <= k < |pieces| ensures ';' !in Trim(pieces[k]) && NoComment(Trim(pieces[k])) {
      TrimKeeps(pieces[k], ';');
    }
    NonEmpty(TrimAll(pieces))
  }

  /**
   * Statements joined with `;`, in a text without `--`, are split back
   * into their trimmed forms, in their order and with their repetitions,
   * the empty ones dropped.
   */
  lemma {:induction false} SplitSqlJoin(stmts: seq<string>)
    requires |stmts| >= 1
    requires forall k :: 0 <= k < |stmts| ==> ';' !in stmts[k]
    requires NoComment(JoinWith(stmts, ';'))
    ensures SplitSql(JoinWith(stmts, ';')) == NonEmpty(TrimAll(stmts))
  {
    StripWithoutComment(JoinWith(stmts, ';'));
    SplitJoin(stmts, ';');
  }

  /** A script of trimmed, non-empty statements yields exactly those statements, in order. */
  lemma {:induction false} SplitSqlStatements(stmts: seq<string>)
    requires |stmts| >= 1
    requires forall k :: 0 <= k < |stmts| ==> stmts[k] != "" && ';' !in stmts[k] && Trim(stmts[k]) == stmts[k]
    requires NoComment(JoinWith(stmts, ';'))
    ensures SplitSql(JoinWith(stmts, ';')) == stmts
  {
    SplitSqlJoin(stmts);
    assert TrimAll(stmts) == stmts;
    NonEmptyAllKept(stmts);
  }

  /** Text without a line terminator followed by the rest of the text: the rest of the line is that rest. */
  lemma {:induction false} RestOfLineAfter(c: string, rest: string)
    requires forall k :: 0 <= k < |c| ==> !LineTerminator(c[k])
    requires rest == [] || LineTerminator(rest[0])
    ensures RestOfLine(c + rest) == rest
  {
    if c == [] {
      assert c + rest == rest;
    } else {
      assert (c + rest)[1..] == c[1..] + rest;
      RestOfLineAfter(c[1..], rest);
    }
  }

  /** A comment at the start goes up to its line terminator. */
  lemma {:induction false} StripLeadingComment(c: string, rest: string)
    requires forall k :: 0 <= k < |c| ==> !LineTerminator(c[k])
    requires rest == [] || LineTerminator(rest[0])
    ensures StripComments("--" + c + rest) == StripComments(rest)
  {
    var d := "--" + c;
    forall k | 0 <= k < |d|
      ensures !LineTerminator(d[k])
    {
      if k >= 2 {
        assert d[k] == c[k - 2];
      }
    }
    RestOfLineAfter(d, rest);
    assert StartsComment(d + rest);
  }

  /**
   * The text before a comment survives whole, the comment up to its line
   * terminator goes, and stripping goes on from the terminator.
   */
  lemma {:induction false} StripCommentLine(a: string, c: string, rest: string)
    requires NoComment(a) && (a == [] || a[|a| - 1] != '-')
    requires forall k :: 0 <= k < |c| ==> !LineTerminator(c[k])
    requires rest == [] || LineTerminator(rest[0])
    ensures StripComments(a + "--" + c + rest) == a + StripComments(rest)
  {
    if a == [] {
      assert a + "--" + c + rest == "--" + c + rest;
      StripLeadingComment(c, rest);
    } else {
      var s := a + "--" + c + rest;
      var t := a[1..] + "--" + c + rest;
      assert s == [a[0]] + t;
      InfixNoComment(a, 1, |a|);
      assert a[1..|a|] == a[1..];
      StripCommentLine(a[1..], c, rest);
      assert !StartsComment(s) by {
        if |a| >= 2 {
          assert !(a[0] == '-' && a[1] == '-');
        }
      }
      assert StripComments(s) == [a[0]] + StripComments(t);
      ConsAppend(a, StripComments(rest));
    }
  }

  lemma ConsAppend(a: string, x: string)
    requires a != []
    ensures [a[0]] + (a[1..] + x) == a + x
  {
    assert [a[0]] + a[1..] == a;
  }

  /**
   * The splitter does not know quoting: a `;` inside a string literal
   * still ends a statement, and a `--` inside one still starts a comment.
   */
  lemma QuotedSemicolonSplits()
    ensures SplitSql("';'") == ["'", "'"]
  {
    QuotedTextKept();
    QuotedTextSplit();
    TrimOfTrimmed("'");
    var t := TrimAll(["'", "'"]);
    assert t == ["'", "'"];
    assert t[1..] == ["'"];
    assert NonEmpty(t) == ["'", "'"];
  }

  lemma QuotedTextKept()
    ensures StripComments("';'") == "';'"
  {
    assert NoComment("';'");
    StripWithoutComment("';'");
  }

  lemma QuotedTextSplit()
    ensures Split("';'", ';') == ["'", "'"]
  {
    var s := "';'";
    assert Split("'", ';') == ["'"];
    assert s[1..] == ";'";
    assert Split(";'", ';') == ["", "'"];
    assert ['\''] + "" == "'";
    assert Split(s, ';') == [['\''] + ""] + ["'"] == ["'"] + ["'"];
    assert ["'"] + ["'"] == ["'", "'"];
  }

  lemma QuotedDashesStrip()
    ensures StripComments("'--'") == "'"
  {
    var s := "'--'";
    var tail := s[1..];
    assert StartsComment(tail) && !StartsComment(s);
    assert forall k :: 0 <= k < |tail| ==> !LineTerminator(tail[k]);
    RestOfLineWithoutTerminator(tail);
    assert StripComments(s) == [s[0]] + StripComments(tail);
  }

  /** On a text without line terminators the rest of the line is empty. */
  lemma {:induction false} RestOfLineWithoutTerminator(s: string)
    requires forall k :: 0 <= k < |s| ==> !LineTerminator(s[k])
    ensures RestOfLine(s) == []
  {
    if s != [] {
      RestOfLineWithoutTerminator(s[1..]);
    }
  }
}
