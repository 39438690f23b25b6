/**
 * The shape of a snippet identifier and the naming and lifetime policy the
 * allocator and both handlers share: a snippet `id` lives under the key
 * `snippet:<id>`, its view counter under `snippet:<id>:views`, and both are
 * written with the same fourteen-day time to live.
 */
module SnippetKeys {

  /** Identifiers are exactly this many characters long. */
  const IdLength: nat := 12

  /** Fourteen days, as given to SETEX. */
  const TtlSeconds: nat := 1209600

  /** Fourteen days in milliseconds, as added to the clock for the reported
      expiry. */
  const TtlMillis: nat := 1209600000

  /** The URL-safe alphabet `[A-Za-z0-9_-]`. */
  predicate IsUrlSafe(c: char) {
    ('A' <= c <= 'Z') || ('a' <= c <= 'z') || ('0' <= c <= '9') || c == '_' || c == '-'
  }

  /** A well-formed snippet identifier. */
  predicate IsSnippetId(s: string) {
    |s| == IdLength && forall i :: 0 <= i < |s| ==> IsUrlSafe(s[i])
  }

  function RecordKey(id: string): string {
    "snippet:" + id
  }

  function ViewsKey(id: string): string {
    "snippet:" + id + ":views"
  }

  /** A record key and a counter key coincide only when the record's id is
      the counter's id followed by ":views". */
  lemma {:induction false} RecordKeyMeetsViewsKey(a: string, b: string)
    requires RecordKey(a) == ViewsKey(b)
    ensures a == b + ":views"
  {
    var p := "snippet:";
    assert RecordKey(a)[|p|..] == a;
    assert ViewsKey(b) == p + (b + ":views");
    assert ViewsKey(b)[|p|..] == b + ":views";
  }

  /** Distinct identifiers never share a key, and no snippet identifier's
      record key is anybody's counter key. */
  lemma {:induction false} KeysAreSeparate(a: string, b: string)
    ensures RecordKey(a) == RecordKey(b) ==> a == b
    ensures ViewsKey(a) == ViewsKey(b) ==> a == b
    ensures IsSnippetId(a) ==> RecordKey(a) != ViewsKey(b)
    ensures RecordKey(a) != ViewsKey(a)
  {
    var p := "snippet:";
    if RecordKey(a) == RecordKey(b) {
      assert RecordKey(a)[|p|..] == a;
      assert RecordKey(b)[|p|..] == b;
    }
    if ViewsKey(a) == ViewsKey(b) {
      assert ViewsKey(a) == p + a + ":views";
      assert ViewsKey(a)[|p|..|p| + |a|] == a;
      assert ViewsKey(b)[|p|..|p| + |b|] == b;
    }
    if RecordKey(a) == ViewsKey(b) {
      RecordKeyMeetsViewsKey(a, b);
      assert a[|b|] == ':';
      assert !IsUrlSafe(a[|b|]);
    }
    assert |RecordKey(a)| < |ViewsKey(a)|;
  }
}
