/**
 * The authentication middleware: the token is the last space-separated
 * piece of the first Authorization header value, and it must equal one
 * fixed string. The scheme word ("Bearer") is never looked at.
 */
module Auth {
  import opened Users

  const ValidToken := "valid-token"

  predicate SpaceFree(s: string) {
    forall i :: 0 <= i < |s| ==> s[i] != ' '
  }

  /** string.Split(" "): the pieces between single spaces, empty pieces included; never empty. */
  function Split(s: string): (pieces: seq<string>)
    ensures |pieces| >= 1
  {
    if |s| == 0 then [""]
    else
      var rest := Split(s[1..]);
      if s[0] == ' ' then [""] + rest
      else [[s[0]] + rest[0]] + rest[1..]
  }

  /** The pieces put back together with one space between neighbours. */
  function Join(pieces: seq<string>): string
    requires |pieces| >= 1
  {
    if |pieces| == 1 then pieces[0] else pieces[0] + " " + Join(pieces[1..])
  }

  /** Splitting loses nothing: the pieces are free of spaces and join back to the input. */
  lemma {:induction false} JoinSplit(s: string)
    ensures Join(Split(s)) == s
    ensures forall i :: 0 <= i < |Split(s)| ==> SpaceFree(Split(s)[i])
  {
    SplitPiecesSpaceFree(s);
    if |s| > 0 {
      var rest := Split(s[1..]);
      JoinSplit(s[1..]);
      assert s == [s[0]] + s[1..];
      if s[0] == ' ' {
        var pieces := [""] + rest;
        assert Split(s) == pieces;
        assert pieces[1..] == rest;
        JoinCons(pieces);
        assert Join(pieces) == "" + " " + s[1..];
      } else {
        var pieces := [[s[0]] + rest[0]] + rest[1..];
        assert Split(s) == pieces;
        if |rest| > 1 {
          assert pieces[1..] == rest[1..];
          JoinCons(rest);
          JoinCons(pieces);
          assert Join(pieces) == [s[0]] + (rest[0] + " " + Join(rest[1..]));
        } else {
          assert Join(pieces) == [s[0]] + rest[0];
        }
      }
    }
  }

  /** Join of two or more pieces: the first, a space, then the join of the rest. */
  lemma JoinCons(pieces: seq<string>)
    requires |pieces| > 1
    ensures Join(pieces) == pieces[0] + " " + Join(pieces[1..])
  {
  }

  lemma {:induction false} SplitPiecesSpaceFree(s: string)
    ensures forall i :: 0 <= i < |Split(s)| ==> SpaceFree(Split(s)[i])
  {
    if |s| > 0 {
      var rest := Split(s[1..]);
      SplitPiecesSpaceFree(s[1..]);
      if s[0] != ' ' {
        var pieces := [[s[0]] + rest[0]] + rest[1..];
        assert forall i :: 1 <= i < |pieces| ==> pieces[i] == rest[i];
      }
    }
  }

  /** Splitting a space-free prefix glues it onto the first piece of the rest. */
  lemma {:induction false} SplitSpaceFreePrefix(a: string, b: string)
    requires SpaceFree(a)
    ensures Split(a + b) == [a + Split(b)[0]] + Split(b)[1..]
  {
    if |a| > 0 {
      SplitSpaceFreePrefix(a[1..], b);
      assert (a + b)[1..] == a[1..] + b;
      assert [a[0]] + (a[1..] + Split(b)[0]) == a + Split(b)[0];
    } else {
      assert a + b == b;
      assert a + Split(b)[0] == Split(b)[0];
    }
  }

  /** And back: space-free pieces joined with spaces split into exactly those pieces. */
  lemma {:induction false} SplitJoin(pieces: seq<string>)
    requires |pieces| >= 1
    requires forall i :: 0 <= i < |pieces| ==> SpaceFree(pieces[i])
    ensures Split(Join(pieces)) == pieces
  {
    if |pieces| == 1 {
      SplitSpaceFreePrefix(pieces[0], "");
      assert pieces[0] + "" == pieces[0];
    } else {
      var tail := pieces[1..];
      SplitJoin(tail);
      var rest := " " + Join(tail);
      assert rest[1..] == Join(tail);
      assert Split(rest) == [""] + tail;
      SplitSpaceFreePrefix(pieces[0], rest);
      assert pieces[0] + " " + Join(tail) == pieces[0] + rest;
      assert pieces[0] + "" == pieces[0];
    }
  }

  lemma {:induction false} JoinLast(pieces: seq<string>)
    requires |pieces| > 1
    ensures Join(pieces) == Join(pieces[..|pieces| - 1]) + " " + pieces[|pieces| - 1]
  {
    var tail := pieces[1..];
    if |tail| > 1 {
      JoinLast(tail);
      assert pieces[..|pieces| - 1][1..] == tail[..|tail| - 1];
    }
  }

  /** `.Split(" ").Last()`: the last piece. */
  function LastSegment(header: string): string {
    var pieces := Split(header);
    pieces[|pieces| - 1]
  }

  /**
   * The last piece is the longest space-free suffix: either the whole
   * header, or what follows its last space (empty after a trailing space).
   */
  lemma LastSegmentIsFinalRun(header: string)
    ensures var t := LastSegment(header);
      && SpaceFree(t)
      && |t| <= |header| && header[|header| - |t|..] == t
      && (|t| == |header| || header[|header| - |t| - 1] == ' ')
      && forall i :: |header| - |t| <= i < |header| ==> header[i] != ' '
  {
    var pieces := Split(header);
    JoinSplit(header);
    var t := pieces[|pieces| - 1];
    assert SpaceFree(t);
    if |pieces| > 1 {
      JoinLast(pieces);
      var front := Join(pieces[..|pieces| - 1]);
      assert header == front + " " + t;
      assert header[|header| - |t|..] == t;
      assert header[|header| - |t| - 1] == ' ';
    }
    forall i | |header| - |t| <= i < |header| ensures header[i] != ' ' {
      assert header[i] == t[i - (|header| - |t|)];
    }
  }

  /** `.FirstOrDefault()?.Split(" ").Last()`: no header value gives no token. */
  function ExtractToken(authorization: seq<string>): Option<string> {
    if |authorization| == 0 then None else Some(LastSegment(authorization[0]))
  }

  /** ValidateToken: equality with the one accepted token, nothing more. */
  predicate ValidateToken(token: string) {
    token == ValidToken
  }

  /** The gate lets the request through: a token was found and it is the accepted one. */
  predicate Authorized(authorization: seq<string>) {
    var token := ExtractToken(authorization);
    token.Some? && ValidateToken(token.value)
  }

  /** The header value is the token alone, or ends with a space followed by the token. */
  predicate EndsWithToken(header: string) {
    header == ValidToken
    || (|header| > |ValidToken| && header[|header| - |ValidToken| - 1..] == " " + ValidToken)
  }

  lemma TokenSpaceFree()
    ensures SpaceFree(ValidToken)
  {
  }

  /** A header value ending in " valid-token" (or equal to the token) yields the token. */
  lemma TokenFromEndsWith(header: string)
    requires EndsWithToken(header)
    ensures LastSegment(header) == ValidToken
  {
    TokenSpaceFree();
    if header != ValidToken {
      var n := |ValidToken|;
      assert header[|header| - n - 1..] == [header[|header| - n - 1]] + header[|header| - n..];
    }
    FinalRunOfSuffix(header, ValidToken);
  }

  /** A space-free word that is the whole header, or follows its last space, is its last piece. */
  lemma FinalRunOfSuffix(header: string, w: string)
    requires SpaceFree(w) && |w| <= |header| && header[|header| - |w|..] == w
    requires |w| == |header| || header[|header| - |w| - 1] == ' '
    ensures LastSegment(header) == w
  {
    var t := LastSegment(header);
    var start := |header| - |w|;
    LastSegmentIsFinalRun(header);
    forall i | start <= i < |header| ensures header[i] != ' ' {
      assert header[i] == w[i - start];
    }
    assert |t| == |w|;
  }

  /** A header value whose last piece is the token ends in " valid-token" or is the token. */
  lemma EndsWithFromToken(header: string)
    requires LastSegment(header) == ValidToken
    ensures EndsWithToken(header)
  {
    var h, n := header, |ValidToken|;
    LastSegmentIsFinalRun(h);
    if n < |h| {
      assert h[|h| - n - 1..] == [h[|h| - n - 1]] + h[|h| - n..];
    }
  }

  /** Which requests pass the gate, in both directions: those whose first Authorization value is "valid-token" or ends in " valid-token". */
  lemma AuthorizedIff(authorization: seq<string>)
    ensures Authorized(authorization) <==> |authorization| > 0 && EndsWithToken(authorization[0])
  {
    if |authorization| > 0 {
      if EndsWithToken(authorization[0]) {
        TokenFromEndsWith(authorization[0]);
      }
      if Authorized(authorization) {
        EndsWithFromToken(authorization[0]);
      }
    }
  }

  /** The scheme word is not checked: the bare token passes, and so does any word before it. */
  lemma AnySchemeWordPasses(scheme: string)
    ensures Authorized([ValidToken])
    ensures Authorized([scheme + " " + ValidToken])
  {
    AuthorizedIff([ValidToken]);
    var h := scheme + " " + ValidToken;
    assert h[|h| - |ValidToken| - 1..] == " " + ValidToken;
    AuthorizedIff([h]);
  }

  /** A trailing space leaves an empty last piece, so the request is refused. */
  lemma TrailingSpaceRejected(header: string)
    ensures LastSegment(header + " ") == ""
    ensures !Authorized([header + " "])
  {
    var h := header + " ";
    LastSegmentIsFinalRun(h);
    var t := LastSegment(h);
    assert h[|h| - 1] == ' ';
  }

  /** Only the first Authorization value is read; a missing header is refused. */
  lemma OnlyFirstValueRead(first: string, others: seq<string>)
    ensures Authorized([first] + others) == Authorized([first])
    ensures !Authorized([])
  {
  }
}
