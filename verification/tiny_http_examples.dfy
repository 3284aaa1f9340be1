/**
 Concrete header values and the boundary the `tiny_http` adapter extracts
 from each.
 */
module TinyHttpExamples {
  import opened Wrappers
  import opened TinyHttp

  /**
   A typical header value: the prefix before `boundary=` has no `b`, so the
   token after it is found, cut at `;`, and keeps its surrounding blanks.
   */
  lemma LiteralValueExample()
    ensures BoundaryFromValue("x; boundary= abc ;y") == Some(" abc ")
  {
    NoBoundaryInWithoutB("x; ");
    assert "x; boundary= abc ;y" == "x; " + BOUNDARY + " abc " + ";y";
    PlainTokenRoundTrip("x; ", " abc ", ";y");
  }
}
