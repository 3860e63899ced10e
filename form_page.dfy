/**
 * The submit handler of js/form.js together with showError and clearError,
 * on a form modelled as one list of sibling elements. An error message is
 * an element placed right after the control it belongs to; clearError
 * removes it, showError first removes the old one and then inserts the new.
 */
module FormPage {
  import opened Wrappers
  import opened FormRules

  /** A sibling element: a form control, an element of class `error-message`, or anything else. */
  datatype Element = Control(field: Field) | ErrorSpan(message: string) | OtherElement

  /** No error message directly follows another one. */
  ghost predicate NoAdjacentSpans(es: seq<Element>)
  {
    forall i, k :: 0 <= i && k == i + 1 && k < |es| && es[k].ErrorSpan? ==> !es[i].ErrorSpan?
  }

  /** The message shown next to element `j`, if any. */
  function ShownAfter(es: seq<Element>, j: nat): Option<string>
    requires j < |es|
  {
    if j + 1 < |es| && es[j + 1].ErrorSpan? then Some(es[j + 1].message) else None
  }

  /** What a user sees of one control: the control and the message next to it. */
  datatype Slot = Slot(field: Field, shown: Option<string>)

  /** The controls of `es` in document order, each with its message. */
  function View(es: seq<Element>): seq<Slot>
  {
    if es == [] then []
    else (if es[0].Control? then [Slot(es[0].field, ShownAfter(es, 0))] else []) + View(es[1..])
  }

  /** clearError: the `error-message` sibling right after element `j`, if any, is removed. */
  function WithoutErrorAfter(es: seq<Element>, j: nat): (r: seq<Element>)
    requires j < |es|
    ensures j < |r| && r[..j + 1] == es[..j + 1]
  {
    if j + 1 < |es| && es[j + 1].ErrorSpan? then es[..j + 1] + es[j + 2..] else es
  }

  /** showError: clearError, then a new message is inserted right after element `j`. */
  function WithErrorAfter(es: seq<Element>, j: nat, message: string): (r: seq<Element>)
    requires j < |es|
  {
    var cleared := WithoutErrorAfter(es, j);
    cleared[..j + 1] + [ErrorSpan(message)] + cleared[j + 1..]
  }

  /*
   * The lemmas below are stated for any per-input rule `rule`; the handler
   * uses FormRules.CheckField.
   */

  /** The message a required control shows after the handler ran the rule on it. */
  function Shown(verdict: Check): Option<string>
  {
    if verdict.Fail? then Some(verdict.message) else None
  }

  /** The slot after the handler has run `rule` on it; controls that are not required are skipped. */
  function Revalidate(s: Slot, rule: Field -> Check): Slot
  {
    if !s.field.required then s
    else
      match rule(s.field)
      case Pass => Slot(s.field, None)
      case Fail(message) => Slot(s.field, Some(message))
  }

  /** Revalidate applied to every slot. */
  function RevalidateAll(v: seq<Slot>, rule: Field -> Check): (r: seq<Slot>)
    ensures |r| == |v|
  {
    if v == [] then [] else RevalidateAll(v[..|v| - 1], rule) + [Revalidate(v[|v| - 1], rule)]
  }

  /** Every required control in `v` passes `rule`. */
  predicate AllPass(v: seq<Slot>, rule: Field -> Check)
  {
    forall i :: 0 <= i < |v| && v[i].field.required ==> rule(v[i].field).Pass?
  }

  /**
   * After revalidation every control keeps its place and its value; a
   * required one shows the message of its verdict, or nothing when it
   * passes, and any other keeps what it showed.
   */
  lemma {:induction false} RevalidateAllPointwise(v: seq<Slot>, rule: Field -> Check)
    ensures var r := RevalidateAll(v, rule);
      forall i :: 0 <= i < |v| ==>
        && r[i].field == v[i].field
        && (v[i].field.required ==> r[i].shown == Shown(rule(v[i].field)))
        && (!v[i].field.required ==> r[i] == v[i])
  {
    if v != [] {
      RevalidateAllPointwise(v[..|v| - 1], rule);
    }
  }

  /** Revalidating a second time changes nothing: submitting twice shows the same messages. */
  lemma {:induction false} RevalidateAllIdempotent(v: seq<Slot>, rule: Field -> Check)
    ensures RevalidateAll(RevalidateAll(v, rule), rule) == RevalidateAll(v, rule)
  {
    if v != [] {
      var r := RevalidateAll(v, rule);
      RevalidateAllIdempotent(v[..|v| - 1], rule);
      assert r[..|r| - 1] == RevalidateAll(v[..|v| - 1], rule);
    }
  }

  // ---------------------------------------------------------------------
  // Lemmas about the element list

  /** The view of a list splits at any element that is not an error message. */
  lemma {:induction false} ViewSplit(es: seq<Element>, j: nat)
    requires j <= |es| && (j < |es| ==> !es[j].ErrorSpan?)
    ensures View(es) == View(es[..j]) + View(es[j..])
  {
    if j == 0 {
      assert es[..0] == [] && es[0..] == es;
    } else {
      ViewSplit(es[1..], j - 1);
      assert es[1..][..j - 1] == es[..j][1..];
      assert es[1..][j - 1..] == es[j..];
      if es[0].Control? {
        assert ShownAfter(es, 0) == ShownAfter(es[..j], 0);
      }
    }
  }

  /** An error message contributes nothing to the view of what follows it. */
  lemma ViewSkipsSpan(es: seq<Element>)
    requires es != [] && es[0].ErrorSpan?
    ensures View(es) == View(es[1..])
  {
  }

  /**
   * After showError on a control, exactly one error message follows it:
   * the new one, and the element after it is not an error message.
   */
  lemma ShowErrorLeavesOneMessage(es: seq<Element>, j: nat, message: string)
    requires NoAdjacentSpans(es) && j < |es| && !es[j].ErrorSpan?
    ensures var r := WithErrorAfter(es, j, message);
      NoAdjacentSpans(r) && r[..j + 1] == es[..j + 1] && r[j + 1] == ErrorSpan(message)
      && (j + 2 < |r| ==> !r[j + 2].ErrorSpan?)
  {
    var c := WithoutErrorAfter(es, j);
    ClearErrorKeepsNoAdjacent(es, j);
    var r := WithErrorAfter(es, j, message);
    assert r[j + 1] == ErrorSpan(message);
    forall i, k | 0 <= i && k == i + 1 && k < |r| && r[k].ErrorSpan? ensures !r[i].ErrorSpan? {
      if k <= j { assert r[k] == c[k] && r[i] == c[i]; }
      else if k > j + 2 { assert r[k] == c[k - 1] && r[i] == c[i - 1]; }
    }
  }

  /** clearError keeps the list free of adjacent messages and leaves none after the control. */
  lemma ClearErrorKeepsNoAdjacent(es: seq<Element>, j: nat)
    requires NoAdjacentSpans(es) && j < |es|
    ensures var c := WithoutErrorAfter(es, j);
      NoAdjacentSpans(c) && ShownAfter(c, j) == None
      && c[j + 1..] == (if ShownAfter(es, j).Some? then es[j + 2..] else es[j + 1..])
  {
    var c := WithoutErrorAfter(es, j);
    if ShownAfter(es, j).Some? {
      forall i, k | 0 <= i && k == i + 1 && k < |c| && c[k].ErrorSpan? ensures !c[i].ErrorSpan? {
        if k > j + 1 { assert c[k] == es[k + 1] && c[i] == es[i + 1]; }
        else if k <= j { assert c[k] == es[k] && c[i] == es[i]; }
      }
    }
  }

  /** A second clearError right after the first changes nothing. */
  lemma ClearErrorTwice(es: seq<Element>, j: nat)
    requires NoAdjacentSpans(es) && j < |es|
    ensures WithoutErrorAfter(WithoutErrorAfter(es, j), j) == WithoutErrorAfter(es, j)
  {
    ClearErrorKeepsNoAdjacent(es, j);
  }

  /**
   * The page without the error messages that belong to a control: every
   * `error-message` element directly after a control is dropped, and every
   * other element is kept in order.
   */
  function Skeleton(es: seq<Element>): seq<Element>
  {
    if es == [] then []
    else if es[0].Control? && |es| > 1 && es[1].ErrorSpan? then [es[0]] + Skeleton(es[2..])
    else [es[0]] + Skeleton(es[1..])
  }

  /** The skeleton of a concatenation, when the second part does not start with an error message. */
  lemma {:induction false} SkeletonAppend(p: seq<Element>, q: seq<Element>)
    requires q == [] || !q[0].ErrorSpan?
    ensures Skeleton(p + q) == Skeleton(p) + Skeleton(q)
  {
    if p == [] {
      assert p + q == q;
    } else {
      // Elements dropped at the front along with p[0]: its message, if it has one.
      var d := if p[0].Control? && |p| > 1 && p[1].ErrorSpan? then 2 else 1;
      assert Skeleton(p + q) == [p[0]] + Skeleton(p[d..] + q) by {
        assert (p + q)[0] == p[0] && (|p| > 1 ==> (p + q)[1] == p[1]);
        assert (p + q)[d..] == p[d..] + q;
      }
      SkeletonAppend(p[d..], q);
      var x, y, z := [p[0]], Skeleton(p[d..]), Skeleton(q);
      assert x + (y + z) == (x + y) + z;
    }
  }

  /** The skeleton splits at any element that is not an error message. */
  lemma {:induction false} SkeletonSplit(es: seq<Element>, j: nat)
    requires j <= |es| && (j < |es| ==> !es[j].ErrorSpan?)
    ensures Skeleton(es) == Skeleton(es[..j]) + Skeleton(es[j..])
  {
    assert es == es[..j] + es[j..];
    SkeletonAppend(es[..j], es[j..]);
  }

  /**
   * Both what a user sees of the controls and everything else on the page
   * together fix the page: two lists with the same view and the same
   * skeleton are equal.
   */
  lemma {:induction false} PageDetermined(a: seq<Element>, b: seq<Element>)
    requires Skeleton(a) == Skeleton(b) && View(a) == View(b)
    ensures a == b
    decreases |a|
  {
    if a != [] {
      assert b != [] && a[0] == Skeleton(a)[0] == Skeleton(b)[0] == b[0];
      if a[0].Control? && ShownAfter(a, 0).Some? {
        assert View(a)[0] == View(b)[0];
        assert Skeleton(a)[1..] == Skeleton(a[2..]) && Skeleton(b)[1..] == Skeleton(b[2..]);
        assert View(a)[1..] == View(a[2..]) && View(b)[1..] == View(b[2..]);
        PageDetermined(a[2..], b[2..]);
        assert a == a[..2] + a[2..] && b == b[..2] + b[2..];
      } else {
        if a[0].Control? {
          assert View(a)[0] == View(b)[0];
          assert View(a)[1..] == View(a[1..]) && View(b)[1..] == View(b[1..]);
        } else {
          assert View(a) == View(a[1..]) && View(b) == View(b[1..]);
        }
        assert Skeleton(a)[1..] == Skeleton(a[1..]) && Skeleton(b)[1..] == Skeleton(b[1..]);
        PageDetermined(a[1..], b[1..]);
        assert a == [a[0]] + a[1..] && b == [b[0]] + b[1..];
      }
    }
  }

  /**
   * The handler's step on a control (clearError, then showError when the
   * rule fails) changes nothing but that control's message.
   */
  lemma RequiredStepKeepsSkeleton(es: seq<Element>, j: nat, shown: Option<string>)
    requires NoAdjacentSpans(es) && j < |es| && es[j].Control?
    ensures var c := WithoutErrorAfter(es, j);
      var r := if shown.Some? then WithErrorAfter(c, j, shown.value) else c;
      Skeleton(r) == Skeleton(es)
  {
    var c := WithoutErrorAfter(es, j);
    ClearErrorKeepsNoAdjacent(es, j);
    var rest := Skeleton(c[j + 1..]);
    SkeletonSplit(es, j);
    if ShownAfter(es, j).Some? {
      assert es[j..][2..] == es[j + 2..];
    } else {
      assert es[j..][1..] == es[j + 1..];
    }
    assert Skeleton(es[j..]) == [es[j]] + rest;
    SkeletonSplit(c, j);
    assert c[..j] == es[..j];
    assert c[j..][1..] == c[j + 1..];
    assert Skeleton(c[j..]) == [es[j]] + rest;
    if shown.Some? {
      var r := WithErrorAfter(c, j, shown.value);
      ClearErrorTwice(es, j);
      SkeletonSplit(r, j);
      assert r[..j] == es[..j];
      assert r[j..][2..] == c[j + 1..];
      assert Skeleton(r[j..]) == [es[j]] + rest;
    }
  }

  /**
   * One step of the handler on the required control at `j`: clearError,
   * then showError when the rule fails. The prefix gains the control's
   * new slot; the rest of the view is untouched.
   */
  lemma RequiredStep(es: seq<Element>, j: nat, shown: Option<string>)
    requires NoAdjacentSpans(es) && j < |es| && es[j].Control?
    ensures var c := WithoutErrorAfter(es, j);
      var r := if shown.Some? then WithErrorAfter(c, j, shown.value) else c;
      var next := if shown.Some? then j + 2 else j + 1;
      && NoAdjacentSpans(r) && next <= |r| && (next < |r| ==> !r[next].ErrorSpan?)
      && View(r[..next]) == View(es[..j]) + [Slot(es[j].field, shown)]
      && View(r[next..]) == View(es[j + 1..])
      && |r| - next < |es| - j
  {
    var c := WithoutErrorAfter(es, j);
    ClearErrorKeepsNoAdjacent(es, j);
    var r := if shown.Some? then WithErrorAfter(c, j, shown.value) else c;
    var next := if shown.Some? then j + 2 else j + 1;
    if shown.Some? {
      ClearErrorTwice(es, j);
      ShowErrorLeavesOneMessage(c, j, shown.value);
      assert r[next..] == c[j + 1..];
      assert r[..next] == es[..j] + [es[j], ErrorSpan(shown.value)];
      var tail := [es[j], ErrorSpan(shown.value)];
      assert r[..next][j..] == tail;
      assert tail[1..] == [ErrorSpan(shown.value)] && tail[1..][1..] == [];
      assert View(tail[1..]) == [];
      assert ShownAfter(tail, 0) == shown;
      assert View(tail) == [Slot(es[j].field, shown)];
    } else {
      assert r[..next] == es[..j] + [es[j]];
      assert r[..next][j..] == [es[j]];
      assert View([es[j]]) == [Slot(es[j].field, None)] by { assert [es[j]][1..] == []; }
      if j + 1 < |c| { assert c[j + 1] == c[j + 1..][0]; }
    }
    ViewSplit(r[..next], j);
    assert r[..next][..j] == es[..j];
    assert r[next..] == c[j + 1..];
    if ShownAfter(es, j).Some? {
      ViewSkipsSpan(es[j + 1..]);
      assert es[j + 1..][1..] == es[j + 2..];
      assert View(c[j + 1..]) == View(es[j + 1..]);
    } else {
      assert c[j + 1..] == es[j + 1..];
    }
  }

  /**
   * One step over an element the handler does not touch (a control that
   * is not required, or any other element), together with the error
   * message that may follow it.
   */
  lemma SkipStep(es: seq<Element>, j: nat)
    requires NoAdjacentSpans(es) && j < |es| && !es[j].ErrorSpan?
    requires !(es[j].Control? && es[j].field.required)
    ensures var next := if ShownAfter(es, j).Some? then j + 2 else j + 1;
      && next <= |es| && (next < |es| ==> !es[next].ErrorSpan?)
      && View(es[j..]) == View(es[j..next]) + View(es[next..])
      && View(es[..next]) == View(es[..j]) + View(es[j..next])
      && View(es[j..next]) == (if es[j].Control? then [Slot(es[j].field, ShownAfter(es, j))] else [])
  {
    var next := if ShownAfter(es, j).Some? then j + 2 else j + 1;
    ViewSplit(es[j..], next - j);
    assert es[j..][..next - j] == es[j..next];
    assert es[j..][next - j..] == es[next..];
    ViewSplit(es[..next], j);
    assert es[..next][..j] == es[..j];
    assert es[..next][j..] == es[j..next];
    assert es[j..next][1..] == es[j + 1..next];
    if next == j + 2 {
      assert es[j + 1..next] == [es[j + 1]];
      assert ShownAfter(es[j..next], 0) == ShownAfter(es, j);
    } else {
      assert es[j + 1..next] == [];
    }
  }

  /** The view of a list that starts with a control starts with that control's slot. */
  lemma ViewOfControl(es: seq<Element>)
    requires es != [] && es[0].Control?
    ensures View(es) == [Slot(es[0].field, ShownAfter(es, 0))] + View(es[1..])
  {
  }

  lemma RevalidateAllSnoc(v: seq<Slot>, n: nat, rule: Field -> Check)
    requires n < |v|
    ensures RevalidateAll(v[..n + 1], rule) == RevalidateAll(v[..n], rule) + [Revalidate(v[n], rule)]
    ensures AllPass(v[..n + 1], rule) <==>
      AllPass(v[..n], rule) && (v[n].field.required ==> rule(v[n].field).Pass?)
  {
    assert v[..n + 1][..n] == v[..n];
    assert forall i :: 0 <= i < n ==> v[..n + 1][i] == v[..n][i];
  }

  /**
   * The state of the submit handler after it has looked at `es[..j]`,
   * which holds the first `n` controls of the original view `v0`.
   */
  ghost predicate Progress(es: seq<Element>, j: nat, v0: seq<Slot>, n: nat, valid: bool,
                           rule: Field -> Check)
  {
    && NoAdjacentSpans(es)
    && j <= |es| && (j < |es| ==> !es[j].ErrorSpan?)
    && n <= |v0|
    && View(es[..j]) == RevalidateAll(v0[..n], rule)
    && View(es[j..]) == v0[n..]
    && valid == AllPass(v0[..n], rule)
  }

  /** Before the first element: nothing is done yet. */
  lemma ProgressStart(es: seq<Element>, rule: Field -> Check)
    requires NoAdjacentSpans(es)
    ensures var j := if es != [] && es[0].ErrorSpan? then 1 else 0;
      Progress(es, j, View(es), 0, true, rule)
  {
    var v0 := View(es);
    assert v0[..0] == [] && v0[0..] == v0;
    assert es[..0] == [] && es[0..] == es;
    if es != [] && es[0].ErrorSpan? {
      assert es[..1] == [es[0]];
      ViewSkipsSpan(es);
      assert 1 < |es| ==> !es[1].ErrorSpan?;
    }
  }

  /** The handler's step on a required control keeps Progress, one control further on. */
  lemma ProgressRequired(es: seq<Element>, j: nat, v0: seq<Slot>, n: nat, valid: bool,
                         ok: bool, r: seq<Element>, next: nat, rule: Field -> Check)
    requires Progress(es, j, v0, n, valid, rule) && j < |es| && es[j].Control? && es[j].field.required
    requires ok == rule(es[j].field).Pass?
    requires var shown := Shown(rule(es[j].field));
      var c := WithoutErrorAfter(es, j);
      && r == (if shown.Some? then WithErrorAfter(c, j, shown.value) else c)
      && next == (if shown.Some? then j + 2 else j + 1)
    ensures NoAdjacentSpans(r) && next <= |r| && (next < |r| ==> !r[next].ErrorSpan?) && n + 1 <= |v0|
    ensures View(r[..next]) == RevalidateAll(v0[..n + 1], rule)
    ensures View(r[next..]) == v0[n + 1..]
    ensures (valid && ok) == AllPass(v0[..n + 1], rule)
    ensures |r| - next < |es| - j
  {
    var f := es[j].field;
    var shown := Shown(rule(f));
    ViewOfControl(es[j..]);
    assert es[j..][1..] == es[j + 1..];
    assert v0[n..] == [Slot(f, ShownAfter(es, j))] + View(es[j + 1..]);
    assert v0[n] == Slot(f, ShownAfter(es, j));
    assert v0[n + 1..] == View(es[j + 1..]) by { assert v0[n + 1..] == v0[n..][1..]; }
    assert Revalidate(v0[n], rule) == Slot(f, shown);
    RevalidateAllSnoc(v0, n, rule);
    RequiredStep(es, j, shown);
    assert View(r[..next]) == RevalidateAll(v0[..n + 1], rule);
    assert View(r[next..]) == v0[n + 1..];
  }

  /** Stepping over an element the handler does not touch keeps Progress. */
  lemma ProgressSkip(es: seq<Element>, j: nat, v0: seq<Slot>, n: nat, valid: bool, next: nat, m: nat,
                     rule: Field -> Check)
    requires Progress(es, j, v0, n, valid, rule) && j < |es| && !(es[j].Control? && es[j].field.required)
    requires next == if j + 1 < |es| && es[j + 1].ErrorSpan? then j + 2 else j + 1
    requires m == if es[j].Control? then n + 1 else n
    ensures NoAdjacentSpans(es) && next <= |es| && (next < |es| ==> !es[next].ErrorSpan?) && m <= |v0|
    ensures View(es[..next]) == RevalidateAll(v0[..m], rule)
    ensures View(es[next..]) == v0[m..]
    ensures valid == AllPass(v0[..m], rule)
    ensures next > j
  {
    SkipStep(es, j);
    if es[j].Control? {
      assert View(es[..next]) == RevalidateAll(v0[..m], rule)
          && View(es[next..]) == v0[m..] && (valid == AllPass(v0[..m], rule)) by {
        assert v0[n..] == [Slot(es[j].field, ShownAfter(es, j))] + View(es[next..]);
        assert v0[n] == Slot(es[j].field, ShownAfter(es, j));
        assert v0[n + 1..] == View(es[next..]) by { assert v0[n + 1..] == v0[n..][1..]; }
        RevalidateAllSnoc(v0, n, rule);
      }
    } else {
      assert View(es[..next]) == RevalidateAll(v0[..m], rule) && View(es[next..]) == v0[m..] by {
        assert View(es[j..next]) == [];
      }
    }
  }


  /** Once every element has been looked at, the whole view is revalidated. */
  lemma ProgressEnd(es: seq<Element>, j: nat, v0: seq<Slot>, n: nat, valid: bool, rule: Field -> Check)
    requires Progress(es, j, v0, n, valid, rule) && j == |es|
    ensures View(es) == RevalidateAll(v0, rule) && (valid <==> AllPass(v0, rule))
  {
    assert es[..j] == es;
    assert es[j..] == [];
    assert n == |v0|;
    assert v0[..n] == v0;
  }

  // ---------------------------------------------------------------------
  // The form

  class FormDom {
    /** The form's controls and their siblings, in document order. */
    var elements: seq<Element>

    ghost predicate Valid()
      reads this
    {
      NoAdjacentSpans(elements)
    }

    constructor (initial: seq<Element>)
      requires NoAdjacentSpans(initial)
      ensures Valid() && elements == initial
    {
      elements := initial;
    }

    /** clearError(input) for the control at index `j`. */
    method ClearError(j: nat)
      requires Valid() && j < |elements| && elements[j].Control?
      modifies this
      ensures Valid()
      ensures elements == WithoutErrorAfter(old(elements), j)
    {
      ClearErrorKeepsNoAdjacent(elements, j);
      if j + 1 < |elements| && elements[j + 1].ErrorSpan? {
        elements := elements[..j + 1] + elements[j + 2..];
      }
    }

    /** showError(input, message) for the control at index `j`. */
    method ShowError(j: nat, message: string)
      requires Valid() && j < |elements| && elements[j].Control?
      modifies this
      ensures Valid()
      ensures elements == WithErrorAfter(old(elements), j, message)
    {
      ShowErrorLeavesOneMessage(elements, j, message);
      ClearError(j);
      elements := elements[..j + 1] + [ErrorSpan(message)] + elements[j + 1..];
    }

    /**
     * The handler's step for one required control at index `j`: its old
     * message is cleared and the message of its first failing check, if
     * any, is shown after it; `ok` says whether every check passed.
     */
    method ValidateInput(j: nat) returns (ok: bool)
      requires Valid() && j < |elements| && elements[j].Control?
      modifies this
      ensures Valid()
      ensures ok == CheckField(old(elements)[j].field).Pass?
      ensures var shown := Shown(CheckField(old(elements)[j].field));
        elements == if shown.Some? then WithErrorAfter(WithoutErrorAfter(old(elements), j), j, shown.value)
                    else WithoutErrorAfter(old(elements), j)
    {
      ClearError(j);
      var verdict := CheckField(elements[j].field);
      if verdict.Fail? {
        ShowError(j, verdict.message);
      }
      ok := verdict.Pass?;
    }

    /**
     * One step of the submit handler at element `j`: a required control is
     * checked (ValidateInput); anything else is passed over together with
     * the message that may follow it.
     */
    method Visit(j: nat, ghost v0: seq<Slot>, ghost n: nat, valid: bool)
      returns (next: nat, ghost m: nat, valid': bool)
      requires Progress(elements, j, v0, n, valid, CheckField) && j < |elements|
      modifies this
      ensures NoAdjacentSpans(elements) && next <= |elements| && (next < |elements| ==> !elements[next].ErrorSpan?) && m <= |v0|
      ensures View(elements[..next]) == RevalidateAll(v0[..m], CheckField)
      ensures View(elements[next..]) == v0[m..]
      ensures valid' == AllPass(v0[..m], CheckField)
      ensures |elements| - next < |old(elements)| - j
      ensures Skeleton(elements) == Skeleton(old(elements))
    {
      ghost var es := elements;
      var e := elements[j];
      if e.Control? && e.field.required {
        RequiredStepKeepsSkeleton(es, j, Shown(CheckField(e.field)));
        var ok := ValidateInput(j);
        next := if ok then j + 1 else j + 2;
        ProgressRequired(es, j, v0, n, valid, ok, elements, next, CheckField);
        m, valid' := n + 1, valid && ok;
      } else {
        next := if j + 1 < |elements| && elements[j + 1].ErrorSpan? then j + 2 else j + 1;
        m := if e.Control? then n + 1 else n;
        ProgressSkip(es, j, v0, n, valid, next, m, CheckField);
        valid' := valid;
      }
    }

    /**
     * The submit handler: every required control is checked in document
     * order, its old message cleared and the message of its first failing
     * check shown; submission is prevented exactly when some required
     * control fails. Controls that are not required keep what they show,
     * and every element that is not a control's message stays in place.
     */
    method Submit() returns (prevented: bool)
      requires Valid()
      modifies this
      ensures Valid()
      ensures Skeleton(elements) == Skeleton(old(elements))
      ensures View(elements) == RevalidateAll(View(old(elements)), CheckField)
      ensures prevented <==> !AllPass(View(old(elements)), CheckField)
    {
      ghost var e0, v0 := elements, View(elements);
      ghost var n: nat := 0;
      var valid := true;
      // a leading stray error message belongs to no control
      var j: nat := if |elements| > 0 && elements[0].ErrorSpan? then 1 else 0;
      ProgressStart(elements, CheckField);
      while j < |elements|
        invariant NoAdjacentSpans(elements) && j <= |elements| && (j < |elements| ==> !elements[j].ErrorSpan?) && n <= |v0|
        invariant View(elements[..j]) == RevalidateAll(v0[..n], CheckField)
        invariant View(elements[j..]) == v0[n..]
        invariant valid == AllPass(v0[..n], CheckField)
        invariant Skeleton(elements) == Skeleton(e0)
        decreases |elements| - j
      {
        j, n, valid := Visit(j, v0, n, valid);
      }
      ProgressEnd(elements, j, v0, n, valid, CheckField);
      prevented := !valid;
    }
  }
}
