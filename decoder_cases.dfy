/**
 * Concrete inputs whose decoding is surprising, each proved for its exact text.
 */
module DecoderCases {
  import opened Wrappers
  import opened RustStr
  import opened MapFill
  import opened FormScan
  import opened HttpRequest
  import opened HttpEnums

  /** A query piece with two '=' signs. */
  const REPEATED_ASSIGN: string := "a=b=c"
  /** A host header whose value holds a port after a second ':'. */
  const HOST_LINE: string := "Host: Localhost:8080"
  /** A head line without any ':'. */
  const CONNECTION_LINE: string := "Connection"
  /** A field line once the boundary dashes and the disposition are gone. */
  const F1_FIELD: string := "name=\"f1\"hello"

  lemma QueryPieceRepeatedAssign()
    ensures QueryPair(REPEATED_ASSIGN) == ("a", "b")
    ensures HasValue(REPEATED_ASSIGN)
  {
    assert REPEATED_ASSIGN == "a" + ['='] + "b=c";
    CutAtChar("a", '=', "b=c");
    assert "b=c" == "b" + ['='] + "c";
    CutAtChar("b", '=', "c");
    QueryPieceParts(REPEATED_ASSIGN);
  }

  lemma QuerySingleSplit()
    ensures Split(REPEATED_ASSIGN, QUERY_PARAM_SEPARATOR) == [REPEATED_ASSIGN]
  {
    QueryHasNoAmpersand();
    SplitFirstPieces(REPEATED_ASSIGN, QUERY_PARAM_SEPARATOR);
  }

  lemma QueryHasNoAmpersand()
    ensures !Contains(REPEATED_ASSIGN, QUERY_PARAM_SEPARATOR)
  {
    assert forall k :: 0 <= k < |REPEATED_ASSIGN| ==> REPEATED_ASSIGN[k] != '&';
    MissingCharNoOccurrence(REPEATED_ASSIGN, QUERY_PARAM_SEPARATOR, 0);
  }

  /** The query "a=b=c" is one piece, whose value is "b": the text after the second '=' is lost. */
  lemma QueryRepeatedAssign()
    ensures QueryParams(REPEATED_ASSIGN) == Ok(map["a" := "b"])
  {
    QuerySingleSplit();
    QueryPieceRepeatedAssign();
    assert QueryPairs([REPEATED_ASSIGN]) == [("a", "b")];
    assert Insertions([("a", "b")]) == map["a" := "b"] by {
      assert [("a", "b")][..0] == [];
    }
  }

  lemma LowerHostName()
    ensures ToAsciiLower("Host") == "host"
  {
    assert forall i :: 0 <= i < 4 ==> ToAsciiLower("Host")[i] == "host"[i];
  }

  lemma LowerHostValue()
    ensures ToAsciiLower(" Localhost:8080") == " localhost:8080"
  {
    assert forall i :: 0 <= i < 15 ==> ToAsciiLower(" Localhost:8080")[i] == " localhost:8080"[i];
  }

  lemma CutHostLine()
    ensures Contains(HOST_LINE, HEADER_SEPARATOR)
    ensures Before(HOST_LINE, HEADER_SEPARATOR) == "Host"
    ensures After(HOST_LINE, HEADER_SEPARATOR) == " Localhost:8080"
  {
    assert HOST_LINE == "Host" + [':'] + " Localhost:8080";
    CutAtChar("Host", ':', " Localhost:8080");
  }

  lemma TrimHostName()
    ensures Trim("host") == "host"
  {
    TrimOfTrimmed("host");
  }

  lemma TrimConnection()
    ensures Trim("connection") == "connection"
  {
    TrimOfTrimmed("connection");
  }

  lemma TrimHostValue()
    ensures Trim(" localhost:8080") == "localhost:8080"
  {
    assert " localhost:8080" == " " + "localhost:8080";
    TrimStartSpace("localhost:8080");
  }

  /** The header line is cut at its first ':' only, so the port stays in the value. */
  lemma HostLineKeepsColons()
    ensures HeaderEntry(HOST_LINE) == ("host", "localhost:8080")
  {
    CutHostLine();
    HeaderEntryParts(HOST_LINE);
    LowerHostName();
    TrimHostName();
    LowerHostValue();
    TrimHostValue();
  }

  lemma LowerConnection()
    ensures ToAsciiLower("Connection") == "connection"
  {
    assert forall i :: 0 <= i < 10 ==> ToAsciiLower("Connection")[i] == "connection"[i];
  }

  /** A head line without ':' does not fail: it is a key with the empty value. */
  lemma HeaderLineWithoutColon()
    ensures HeaderEntry(CONNECTION_LINE) == ("connection", "")
  {
    ConnectionHasNoColon();
    HeaderEntryParts(CONNECTION_LINE);
    LowerConnection();
    TrimConnection();
  }

  lemma ConnectionHasNoColon()
    ensures !Contains(CONNECTION_LINE, HEADER_SEPARATOR)
  {
    assert forall k :: 0 <= k < |CONNECTION_LINE| ==> CONNECTION_LINE[k] != ':';
    MissingCharNoOccurrence(CONNECTION_LINE, HEADER_SEPARATOR, 0);
  }

  /** `name="f1"hello`, bare or behind the disposition prefix, is the field f1 with value hello. */
  lemma FieldLineF1()
    ensures FormEntry(F1_FIELD) == ("f1", "hello")
    ensures FormEntry(DASHES + CONTENT_DISPOSITION + " " + F1_FIELD) == ("f1", "hello")
  {
    assert F1_FIELD == NAME_OPEN + "f1" + QUOTE + "hello";
    FormEntryOfField("f1", "hello");
  }

  // ---------------------------------------------------------------------------
  // A multipart body whose field line is cut by the "\r\n\r\n" framing
  // ---------------------------------------------------------------------------

  /** The disposition header of the field, up to its name. */
  const F1_HEAD: string := CONTENT_DISPOSITION + " " + "name=\"f1\""
  /** The body as read: the "\r\n\r\n" after the name split it into two parts. */
  const F1_PARTS: seq<string> := ["--b\r\n" + F1_HEAD, "hello\r\n--b--\r\n"]
  /** The multipart content type with boundary "b". */
  const F1_TYPE: ContentType := FormData("b\r\n", "b--\r\n")

  /**
   * The value survives only because the body parts are joined back with no
   * separator: the re-joined body yields the field f1 with value hello.
   */
  lemma MultipartFieldAcrossParts()
    ensures FormFields(F1_TYPE, Concat(F1_PARTS)) == map["f1" := "hello"]
  {
    F1HeadLacks();
    assert "hello\r\n--b--\r\n" == "hello" + "\r\n--b--\r\n";
    BoundedBodyLines(F1_HEAD, "hello");
    FieldsOfLines(Concat(F1_PARTS));
  }

  /** A body whose lines are the f1 field line and the closing dashes holds the one field f1. */
  lemma FieldsOfLines(body: string)
    requires FormLines(body, "b\r\n", "b--\r\n") == ["--" + F1_HEAD + "hello", "--"]
    ensures FormFields(F1_TYPE, body) == map["f1" := "hello"]
  {
    F1LineShape();
    BodyPairs();
    FieldsOfF1Type(body);
    SingleInsertion();
  }

  lemma FieldsOfF1Type(body: string)
    ensures FormFields(F1_TYPE, body) == Insertions(FormPairs(FormLines(body, "b\r\n", "b--\r\n")))
  {
  }

  lemma SingleInsertion()
    ensures Insertions([("f1", "hello")]) == map["f1" := "hello"]
  {
    assert [("f1", "hello")][..0] == [];
  }

  /** The field text holds no 'b' and no '\r'. */
  lemma F1HeadLacks()
    ensures Lacks(F1_HEAD + "hello", 'b') && Lacks(F1_HEAD + "hello", '\r')
  {
    var rest := " " + "name=\"f1\"" + "hello";
    assert Lacks(CONTENT_DISPOSITION, 'b') && Lacks(CONTENT_DISPOSITION, '\r');
    assert Lacks(rest, 'b') && Lacks(rest, '\r');
    LacksConcat(CONTENT_DISPOSITION, rest, 'b');
    LacksConcat(CONTENT_DISPOSITION, rest, '\r');
    assert F1_HEAD + "hello" == CONTENT_DISPOSITION + rest;
  }

  /**
   * A body `--b\r\n` + `x` + `y` + `\r\n--b--\r\n` read in the two parts
   * `--b\r\n` + `x` and `y` + `\r\n--b--\r\n` gives the lines `--` + `x` + `y`
   * and `--`, when `x` and `y` hold no 'b' and no '\r'.
   */
  lemma BoundedBodyLines(x: string, y: string)
    requires Lacks(x + y, 'b') && Lacks(x + y, '\r')
    ensures FormLines(Concat(["--b\r\n" + x, y + "\r\n--b--\r\n"]), "b\r\n", "b--\r\n") == ["--" + x + y, "--"]
  {
    var h := x + y;
    var tail := h + "\r\n--";
    var cut := "--b\r\n" + tail;
    RejoinedBody(x, y, cut);
    BodyCut(h, tail, cut);
    assert "--" + x + y == "--" + h;
  }

  /** Joining the two parts with nothing between gives the body cut before its end boundary, then the boundary. */
  lemma RejoinedBody(x: string, y: string, cut: string)
    requires cut == "--b\r\n" + (x + y + "\r\n--")
    ensures Concat(["--b\r\n" + x, y + "\r\n--b--\r\n"]) == cut + "b--\r\n"
  {
    ConcatPair("--b\r\n" + x, y + "\r\n--b--\r\n");
  }

  /** Cut at the end boundary, the start boundary deleted, split at CRLF. */
  lemma BodyCut(h: string, tail: string, cut: string)
    requires Lacks(h, 'b') && Lacks(h, '\r')
    requires tail == h + "\r\n--" && cut == "--b\r\n" + tail
    ensures FormLines(cut + "b--\r\n", "b\r\n", "b--\r\n") == ["--" + h, "--"]
  {
    EndBoundaryCut(h, tail, cut);
    StartBoundaryDeleted(h, tail, cut);
    CleanedLines(h, tail);
    assert FormLines(cut + "b--\r\n", "b\r\n", "b--\r\n") == Split(DeleteAll(cut, "b\r\n"), CRLF);
  }

  /** Deleting the start boundary removes the one "b\r\n", after the leading dashes. */
  lemma StartBoundaryDeleted(h: string, tail: string, cut: string)
    requires Lacks(h, 'b')
    requires tail == h + "\r\n--" && cut == "--b\r\n" + tail
    ensures DeleteAll(cut, "b\r\n") == "--" + tail
  {
    LacksConcat(h, "\r\n--", 'b');
    assert cut == "--" + "b\r\n" + tail;
    DeleteOnly("--", "b\r\n", tail);
  }

  /** The cleaned body splits into the field line and the closing dashes. */
  lemma CleanedLines(h: string, tail: string)
    requires Lacks(h, '\r')
    requires tail == h + "\r\n--"
    ensures Split("--" + tail, CRLF) == ["--" + h, "--"]
  {
    LacksConcat("--", h, '\r');
    assert "--" + tail == ("--" + h) + CRLF + "--";
    SplitOnly("--" + h, CRLF, "--");
  }

  /** The end boundary first occurs at the very end of the body. */
  lemma EndBoundaryCut(h: string, tail: string, cut: string)
    requires Lacks(h, 'b')
    requires tail == h + "\r\n--" && cut == "--b\r\n" + tail
    ensures Before(cut + "b--\r\n", "b--\r\n") == cut
  {
    var p := "b--\r\n";
    var s := cut + p;
    LacksConcat(h, "\r\n--", 'b');
    forall k: nat | k < |cut|
      ensures !OccursAt(s, p, k)
    {
      if k == 2 {
        assert s[3] == '\r';
        assert k + |p| <= |s| ==> s[k..k + |p|][1] == s[3];
      } else if k < 5 {
        assert s[k] == "--b\r\n"[k];
        assert k + |p| <= |s| ==> s[k..k + |p|][0] == s[k];
      } else {
        assert s[k] == tail[k - 5];
        assert k + |p| <= |s| ==> s[k..k + |p|][0] == s[k];
      }
    }
    assert s[|cut|..|cut| + |p|] == p;
    FindLeftmost(s, p, |cut|);
    assert s[..|cut|] == cut;
  }

  lemma F1LineShape()
    ensures "--" + F1_HEAD + "hello" == DASHES + CONTENT_DISPOSITION + " " + F1_FIELD
  {
    assert "name=\"f1\"" + "hello" == F1_FIELD;
  }

  /** The field line gives (f1, hello); the closing dashes give an unnamed entry, which is dropped. */
  lemma BodyPairs()
    ensures FormPairs([DASHES + CONTENT_DISPOSITION + " " + F1_FIELD, "--"]) == [("f1", "hello")]
  {
    var line := DASHES + CONTENT_DISPOSITION + " " + F1_FIELD;
    FieldLineF1();
    ClosingDashesEntry();
    var es := MapSeq(FormEntry, [line, "--"]);
    assert es[0] == ("f1", "hello") && es[1] == ("", "");
    NamedThenUnnamed(es);
  }

  lemma NamedThenUnnamed(es: seq<(string, string)>)
    requires |es| == 2 && es[0] == ("f1", "hello") && es[1] == ("", "")
    ensures KeepNamed(es) == [("f1", "hello")]
  {
    assert es[1..][1..] == [];
  }

  /** The closing "--" line cleans to nothing, so its entry has the empty key. */
  lemma ClosingDashesEntry()
    ensures FormEntry("--") == ("", "")
  {
    assert "--" == DASHES + [];
    DeleteAllAtStart(DASHES, []);
    assert CleanFormLine("--") == [];
  }
}
