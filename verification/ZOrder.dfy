/** The orders in which tree nodes are kept: `<` on Data.val (avl.hpp) and zless on ZNode (zset.hpp). */
module ZOrder {
  import opened AvlShapes
  import opened Bytes

  /** memcmp over the first `n` bytes: negative, zero or positive. */
  function MemCmp(a: bytes, b: bytes, n: nat): int
    requires n <= |a| && n <= |b|
    decreases n
  {
    if n == 0 then 0
    else if a[0] != b[0] then a[0] - b[0]
    else MemCmp(a[1..], b[1..], n - 1)
  }

  /** zless, on a score and a name each. */
  predicate ZLess(score: real, name: bytes, score': real, name': bytes) {
    if score != score' then score < score'
    else
      var rv := MemCmp(name, name', if |name| > |name'| then |name'| else |name|);
      if rv != 0 then rv < 0 else |name| < |name'|
  }

  /** The comparison the tree code makes between two embedding records. */
  predicate Less(a: Record, b: Record) {
    match (a, b)
    case (Data(v), Data(w)) => v < w
    case (ZNode(s, n), ZNode(s', n')) => ZLess(s, n, s', n')
    case (Data(_), ZNode(_, _)) => true
    case (ZNode(_, _), Data(_)) => false
  }

  /** zless on equal scores is the lexicographic order of the names. */
  lemma {:induction false} NameLessStep(score: real, a: bytes, b: bytes)
    ensures a == [] ==> (ZLess(score, a, score, b) <==> b != [])
    ensures b == [] ==> !ZLess(score, a, score, b)
    ensures a != [] && b != [] ==>
              (ZLess(score, a, score, b) <==> a[0] < b[0] || (a[0] == b[0] && ZLess(score, a[1..], score, b[1..])))
  {
  }

  lemma {:induction false} NamesTotal(score: real, a: bytes, b: bytes)
    ensures a == b ==> !ZLess(score, a, score, b)
    ensures a != b ==> ZLess(score, a, score, b) || ZLess(score, b, score, a)
    decreases |a|
  {
    NameLessStep(score, a, b);
    NameLessStep(score, b, a);
    if a != [] && b != [] {
      NamesTotal(score, a[1..], b[1..]);
      assert a == [a[0]] + a[1..] && b == [b[0]] + b[1..];
    }
  }

  lemma {:induction false} NamesTransitive(score: real, a: bytes, b: bytes, c: bytes)
    requires ZLess(score, a, score, b) && ZLess(score, b, score, c)
    ensures ZLess(score, a, score, c)
    decreases |a|
  {
    NameLessStep(score, a, b);
    NameLessStep(score, b, c);
    NameLessStep(score, a, c);
    if a != [] && a[0] == b[0] == c[0] {
      NamesTransitive(score, a[1..], b[1..], c[1..]);
    }
  }

  /** The order is total: of two different records exactly one is less, and no record is less than itself. */
  lemma {:induction false} LessTotal(a: Record, b: Record)
    ensures a == b ==> !Less(a, b)
    ensures a != b ==> (Less(a, b) <==> !Less(b, a))
  {
    if a.ZNode? && b.ZNode? && a.score == b.score {
      NamesTotal(a.score, a.name, b.name);
      if Less(a, b) && Less(b, a) {
        NamesTransitive(a.score, a.name, b.name, a.name);
        NamesTotal(a.score, a.name, a.name);
      }
    }
  }

  lemma {:induction false} LessTransitive(a: Record, b: Record, c: Record)
    requires Less(a, b) && Less(b, c)
    ensures Less(a, c)
  {
    if a.ZNode? && c.ZNode? && a.score == b.score == c.score {
      NamesTransitive(a.score, a.name, b.name, c.name);
    }
  }

  /** Not greater, then less: less. */
  lemma {:induction false} NotGreaterThenLess(a: Record, b: Record, c: Record)
    requires !Less(b, a) && Less(b, c)
    ensures Less(a, c)
  {
    LessTotal(a, b);
    if a != b {
      LessTransitive(a, b, c);
    }
  }

  lemma {:induction false} NotGreaterTransitive(a: Record, b: Record, c: Record)
    requires !Less(b, a) && !Less(c, b)
    ensures !Less(c, a)
  {
    LessTotal(a, b);
    LessTotal(b, c);
    LessTotal(a, c);
    if Less(c, a) && a != b && b != c {
      LessTransitive(c, a, b);
    }
  }

  // ---- What the order is ----

  /** The order of a dictionary: by the first byte that differs, a beginning before what it begins. */
  ghost predicate NameBefore(a: bytes, b: bytes) {
    exists k :: 0 <= k <= |a| && k < |b| && a[..k] == b[..k] && (k == |a| || a[k] < b[k])
  }

  /** Lower scores first, names in the order of a dictionary. */
  ghost predicate Comes(a: Record, b: Record) {
    a.ZNode? && b.ZNode? && (a.score < b.score || (a.score == b.score && NameBefore(a.name, b.name)))
  }

  lemma {:induction false} NameBeforeStep(a: bytes, b: bytes)
    ensures NameBefore(a, b) <==>
            b != [] && (a == [] || a[0] < b[0] || (a[0] == b[0] && NameBefore(a[1..], b[1..])))
  {
    if k :| 0 <= k <= |a| && k < |b| && a[..k] == b[..k] && (k == |a| || a[k] < b[k]) {
      if k > 0 {
        assert a[0] == a[..k][0] == b[..k][0] == b[0];
        assert a[1..][..k - 1] == a[..k][1..] == b[..k][1..] == b[1..][..k - 1];
      }
    }
    if b != [] && (a == [] || a[0] < b[0]) {
      assert a[..0] == b[..0];
    } else if a != [] && b != [] && a[0] == b[0] && NameBefore(a[1..], b[1..]) {
      var k :| 0 <= k <= |a[1..]| && k < |b[1..]| && a[1..][..k] == b[1..][..k] && (k == |a[1..]| || a[1..][k] < b[1..][k]);
      assert a[..k + 1] == [a[0]] + a[1..][..k] && b[..k + 1] == [b[0]] + b[1..][..k];
    }
  }

  lemma {:induction false} NamesLess(score: real, a: bytes, b: bytes)
    ensures ZLess(score, a, score, b) <==> NameBefore(a, b)
    decreases |a|
  {
    NameLessStep(score, a, b);
    NameBeforeStep(a, b);
    if a != [] && b != [] {
      NamesLess(score, a[1..], b[1..]);
    }
  }

  /** zless is that order. */
  lemma {:induction false} LessComes(a: Record, b: Record)
    requires a.ZNode? && b.ZNode?
    ensures Less(a, b) <==> Comes(a, b)
  {
    NamesLess(a.score, a.name, b.name);
  }

  lemma {:induction false} ComesTotal(a: Record, b: Record)
    requires a.ZNode? && b.ZNode?
    ensures a == b ==> !Comes(a, b)
    ensures a != b ==> (Comes(a, b) <==> !Comes(b, a))
  {
    LessComes(a, b);
    LessComes(b, a);
    LessTotal(a, b);
  }
}
