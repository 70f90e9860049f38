/** The order of code points, which is how the database orders text. */
module TextOrder {
  import opened Selection

  predicate TextLess(a: string, b: string) {
    b != "" && (a == "" || a[0] < b[0] || (a[0] == b[0] && TextLess(a[1..], b[1..])))
  }

  lemma {:induction false} TextLessConcat(a: string, b: string, u: string, v: string)
    requires |a| == |b|
    ensures TextLess(a + u, b + v) <==> TextLess(a, b) || (a == b && TextLess(u, v))
  {
    if a == "" {
      assert a + u == u && b + v == v;
    } else {
      assert (a + u)[1..] == a[1..] + u && (b + v)[1..] == b[1..] + v;
      TextLessConcat(a[1..], b[1..], u, v);
      assert a == [a[0]] + a[1..] && b == [b[0]] + b[1..];
    }
  }

  const NotAfterText := (a: string, b: string) => !TextLess(b, a)

  lemma {:induction false} TextLessAsymmetric(a: string, b: string)
    ensures !(TextLess(a, b) && TextLess(b, a))
  {
    if a != "" && b != "" {
      TextLessAsymmetric(a[1..], b[1..]);
    }
  }

  lemma {:induction false} TextNotAfterTransitive(a: string, b: string, c: string)
    requires !TextLess(b, a) && !TextLess(c, b)
    ensures !TextLess(c, a)
  {
    if a != "" && b != "" && c != "" {
      if a[0] == b[0] == c[0] {
        TextNotAfterTransitive(a[1..], b[1..], c[1..]);
      }
    }
  }

  lemma TextIsOrdering()
    ensures IsOrdering(NotAfterText)
  {
    forall a, b ensures NotAfterText(a, b) || NotAfterText(b, a) {
      TextLessAsymmetric(a, b);
    }
    forall a, b, c | NotAfterText(a, b) && NotAfterText(b, c) ensures NotAfterText(a, c) {
      TextNotAfterTransitive(a, b, c);
    }
  }
}
