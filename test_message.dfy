/** The message of the `it_works` unit test of `src/lib.rs`. */
module TestMessage {

  /** `EXAMPLE_HTTP_POST`, the message of the `it_works` unit test, written
      one line and one terminator at a time (the empty lines are the `""`
      pieces).  `ExampleHttpPostRuns` proves it equal to six runs, each
      copied from the test's literal, which the runs spell when put side by
      side; that last step, equality with the single 123-character literal,
      is not proved, because the verifier does not decide an equality of
      string literals that long in reasonable time. */
  const ExampleHttpPost: string :=
    "POST / HTTP/1.1" + "\r\n" +
    "Content-Length: 19" + "\r\n" +
    ExampleContentType + "\r\n" +
    "" + "\r\n" +
    "something=something" + "\r\n" +
    "" + "\r\n"

  /** The `Content-Type` line of `ExampleHttpPost`.  It is written as three
      short literals joined by `+`, which spells the same string; short
      pieces keep the verifier's string terms small enough to check that
      the line holds no line feed. */
  const ExampleContentType: string :=
    "Content-Type: application/" + "x-www-form-urlencoded;" + "boundary=\"\""

  /** The pieces of `ExampleHttpPost`, for any strings in their places,
      regrouped into six runs joined from the right. */
  lemma ExampleHttpPostRegroup(l0: string, l1: string, c0: string, c1: string, c2: string, body: string, t: string)
    ensures l0 + t + l1 + t + (c0 + c1 + c2) + t + "" + t + body + t + "" + t
            == (l0 + t) + ((l1 + t) + (c0 + (c1 + ((c2 + t + "" + t) + (body + t + "" + t)))))
  {
    assert l0 + t + l1 + t + (c0 + c1 + c2) + t + "" + t + body + t + "" + t
           == l0 + t + l1 + t + c0 + c1 + c2 + t + t + body + t + t;
  }

  /** `ExampleHttpPost` as six runs, each a piece of the test's literal as
      it is written there; side by side, in this order, they spell that
      literal. */
  lemma ExampleHttpPostRuns()
    ensures ExampleHttpPost == "POST / HTTP/1.1\r\n" + ("Content-Length: 19\r\n" + ("Content-Type: application/" +
            ("x-www-form-urlencoded;" + ("boundary=\"\"\r\n\r\n" + "something=something\r\n\r\n"))))
  {
    ExampleHttpPostRegroup("POST / HTTP/1.1", "Content-Length: 19", "Content-Type: application/",
                           "x-www-form-urlencoded;", "boundary=\"\"", "something=something", "\r\n");
    assert "POST / HTTP/1.1" + "\r\n" == "POST / HTTP/1.1\r\n";
    assert "Content-Length: 19" + "\r\n" == "Content-Length: 19\r\n";
    assert "boundary=\"\"" + "\r\n" + "" + "\r\n" == "boundary=\"\"\r\n\r\n";
    assert "something=something" + "\r\n" + "" + "\r\n" == "something=something\r\n\r\n";
  }
}
