/**
 * The wheel's entry list. In the page the `<ul>` element is the only record
 * of the entries; here it is a sequence of `Item`s, one per `<li>`, holding
 * what the page reads back from the element: its text content (the entry's
 * text followed by the label of its delete button) and its `data-color`.
 */
module EntryList {
  import opened Text

  /** At most this many entries can be added. */
  const MaxEntries: nat := 12

  /** The colours handed out to new entries, in order. */
  const Palette: seq<string> := [
    "#FF5252", "#4CAF50", "#2196F3", "#FFC107",
    "#9C27B0", "#FF9800", "#795548", "#607D8B",
    "#E91E63", "#009688", "#673AB7", "#FFEB3B"
  ]

  /** The label of every entry's delete button, U+00D7 MULTIPLICATION SIGN. */
  const DeleteMark: char := '\U{D7}'

  /** One `<li>`: `content` is its `textContent`, `color` its `data-color`. */
  datatype Item = Item(content: string, color: string)

  /** An entry as the rest of the page sees it. */
  datatype Entry = Entry(text: string, color: string)

  datatype AddOutcome =
    | Added
    | Blank   // the trimmed input was empty: silently ignored
    | Full    // the list already held MaxEntries items: the page alerts

  /** The list and the text field after an add. */
  datatype AddResult = AddResult(items: seq<Item>, input: string, outcome: AddOutcome)

  /** The text content of an item whose text node holds `text`: the delete
      button is appended after the text, so its label comes last. */
  function Store(text: string): (content: string)
    ensures |content| == |text| + 1
    ensures content[..|text|] == text && content[|text|] == DeleteMark
  {
    text + [DeleteMark]
  }

  /** How the page reads an entry's text back: drop the first delete mark and
      trim. */
  function ReadText(content: string): (text: string)
    ensures IsTrimmed(text)
    ensures |text| <= |content|
  {
    Trim(RemoveFirst(content, DeleteMark))
  }

  function ReadEntry(item: Item): Entry {
    Entry(ReadText(item.content), item.color)
  }

  /** `f` applied to every element of `xs`, in order. */
  function MapSeq<A, B>(f: A -> B, xs: seq<A>): (ys: seq<B>)
    ensures |ys| == |xs|
    ensures forall k :: 0 <= k < |xs| ==> ys[k] == f(xs[k])
  {
    seq(|xs|, k requires 0 <= k < |xs| => f(xs[k]))
  }

  /** The page's `getEntries`: one entry per item, in list order. */
  function GetEntries(items: seq<Item>): (es: seq<Entry>)
    ensures |es| == |items|
    ensures forall k :: 0 <= k < |es| ==>
              es[k].color == items[k].color && IsTrimmed(es[k].text)
  {
    MapSeq(ReadEntry, items)
  }

  /** The page's `addEntry`, applied to the list and to the current value of
      the text field. */
  function Add(items: seq<Item>, input: string): (r: AddResult)
    ensures AllWhite(input) ==> r == AddResult(items, input, Blank)
    ensures !AllWhite(input) && |items| >= MaxEntries ==>
              r == AddResult(items, input, Full)
    ensures !AllWhite(input) && |items| < MaxEntries ==>
              && r.outcome == Added
              && r.input == []
              && |r.items| == |items| + 1
              && r.items[..|items|] == items
              && r.items[|items|] == Item(Store(Trim(input)), Palette[|items|])
    ensures |r.items| <= MaxEntries || r.items == items
  {
    TrimEmptyIffWhite(input);
    var text := Trim(input);
    if text == [] then AddResult(items, input, Blank)
    else if |items| >= MaxEntries then AddResult(items, input, Full)
    else
      assert |Palette| == MaxEntries;
      assert |items| % |Palette| == |items|;
      var item := Item(Store(text), Palette[|items| % |Palette|]);
      AddResult(items + [item], [], Added)
  }

  /** A click on the delete button of the `i`-th item. */
  function Delete(items: seq<Item>, i: nat): (r: seq<Item>)
    requires i < |items|
    ensures |r| == |items| - 1
    ensures forall k :: 0 <= k < i ==> r[k] == items[k]
    ensures forall k :: i <= k < |r| ==> r[k] == items[k + 1]
  {
    items[..i] + items[i + 1..]
  }

  /** Trimming never introduces a character. */
  lemma TrimTextHasNoMark(s: string, c: char)
    requires c !in s
    ensures c !in Trim(s)
  {
    var i := TextStart(s, 0);
    var j := TextEnd(s, i, |s|);
    forall k | 0 <= k < j - i
      ensures s[i..j][k] != c
    {
      assert s[i..j][k] == s[i + k];
    }
  }

  /** Storing a trimmed text and reading it back yields the text, provided the
      text holds no delete mark of its own. */
  lemma RoundTrip(t: string)
    requires IsTrimmed(t) && DeleteMark !in t
    ensures ReadText(Store(t)) == t
  {
    RemoveFirstOfAppended(t, DeleteMark);
    TrimOfTrimmed(t);
  }

  /** A mark inside the text is the one the page removes, so the button label
      survives and the text comes back altered. */
  lemma MarkInTextIsLost()
    ensures ReadText(Store("a\U{D7}b")) == "ab\U{D7}"
  {
    var s := Store("a\U{D7}b");
    assert s == ['a', DeleteMark, 'b', DeleteMark];
    assert FirstIndex(s, DeleteMark) == 1;
    var x := RemoveFirst(s, DeleteMark);
    assert x == "ab\U{D7}";
    assert IsTrimmed(x);
    TrimOfTrimmed(x);
  }

  /** `b + [c] == [c] + b` holds exactly when `b` consists of `c` alone. */
  lemma ShiftFixedIff(b: string, c: char)
    ensures b + [c] == [c] + b <==> forall k :: 0 <= k < |b| ==> b[k] == c
  {
    if b + [c] == [c] + b {
      forall k | 0 <= k < |b|
        ensures b[k] == c
      {
        ShiftFixedIsConstant(b, c, k);
      }
    }
    if forall k :: 0 <= k < |b| ==> b[k] == c {
      forall k | 0 <= k < |b| + 1
        ensures (b + [c])[k] == ([c] + b)[k]
      {
        if k < |b| {
          assert (b + [c])[k] == b[k];
        }
        if k > 0 {
          assert ([c] + b)[k] == b[k - 1];
        }
      }
    }
  }

  lemma {:induction false} ShiftFixedIsConstant(b: string, c: char, k: nat)
    requires b + [c] == [c] + b
    requires k < |b|
    ensures b[k] == c
    decreases k
  {
    assert (b + [c])[k] == b[k];
    if k == 0 {
      assert ([c] + b)[0] == c;
    } else {
      assert ([c] + b)[k] == b[k - 1];
      ShiftFixedIsConstant(b, c, k - 1);
    }
  }

  /** From position `i` on, `t` is all `c` exactly when the part after `i`
      is, given that `t[i]` is a `c`. */
  lemma TailIsMarks(t: string, i: nat, b: string, c: char)
    requires i < |t| && t[i] == c && b == t[i + 1..]
    ensures (forall k :: i <= k < |t| ==> t[k] == c)
            <==> (forall k :: 0 <= k < |b| ==> b[k] == c)
  {
    if forall k :: 0 <= k < |b| ==> b[k] == c {
      forall k | i < k < |t|
        ensures t[k] == c
      {
        assert t[k] == b[k - i - 1];
      }
    }
  }

  /** For a string as long as the trimmed `t`, trimming yields `t` exactly
      when the string already is `t`. */
  lemma TrimToSameLength(x: string, t: string)
    requires IsTrimmed(t) && |x| == |t|
    ensures Trim(x) == t <==> x == t
  {
    if Trim(x) == t {
      TrimCharacterization(x, t);
      var i, j :| 0 <= i <= j <= |x| && x[i..j] == t && WhiteOutside(x, i, j);
      assert x[0..|t|] == x;
    }
    if x == t {
      TrimOfTrimmed(t);
    }
  }

  /** What is left of a stored text once the page removes its first mark,
      when the text's own first mark is at `i`. */
  lemma StoredMarkRemoved(t: string, i: nat)
    requires i < |t| && i == FirstIndex(t, DeleteMark)
    ensures RemoveFirst(Store(t), DeleteMark) == t[..i] + (t[i + 1..] + [DeleteMark])
  {
    var s := Store(t);
    forall k | 0 <= k < i
      ensures s[k] != DeleteMark
    {
      assert s[k] == t[k];
    }
    RemoveFirstAt(s, DeleteMark, i);
    assert s[..i] == t[..i];
    assert s[i + 1..] == t[i + 1..] + [DeleteMark];
  }

  /** Shifting the part of `t` after position `i` left by one and appending a
      `c` gives `t` back exactly when that part is all `c`. */
  lemma ShiftedTailIff(t: string, i: nat, b: string, c: char)
    requires i < |t| && t[i] == c && b == t[i + 1..]
    ensures t[..i] + (b + [c]) == t <==> forall k :: 0 <= k < |b| ==> b[k] == c
  {
    var a := t[..i];
    assert t == a + ([c] + b);
    ShiftFixedIff(b, c);
    if a + (b + [c]) == t {
      assert (a + (b + [c]))[i..] == b + [c];
      assert t[i..] == [c] + b;
    }
  }

  /** Exactly which trimmed texts survive the round trip: those in which every
      character from the first delete mark on is a delete mark. */
  lemma RoundTripIff(t: string)
    requires IsTrimmed(t)
    ensures ReadText(Store(t)) == t <==>
              forall k :: FirstIndex(t, DeleteMark) <= k < |t| ==> t[k] == DeleteMark
  {
    var i := FirstIndex(t, DeleteMark);
    if i == |t| {
      RoundTrip(t);
    } else {
      StoredMarkRemoved(t, i);
      var x := t[..i] + (t[i + 1..] + [DeleteMark]);
      assert ReadText(Store(t)) == Trim(x);
      TrimToSameLength(x, t);
      ShiftedTailIff(t, i, t[i + 1..], DeleteMark);
      TailIsMarks(t, i, t[i + 1..], DeleteMark);
    }
  }

  /** A successful add shows up in `getEntries` as one new entry at the end. */
  lemma AddThenRead(items: seq<Item>, input: string)
    requires !AllWhite(input) && |items| < MaxEntries && DeleteMark !in input
    ensures GetEntries(Add(items, input).items)
            == GetEntries(items) + [Entry(Trim(input), Palette[|items|])]
  {
    var r := Add(items, input);
    var item := r.items[|items|];
    assert r.items == items + [item];
    assert item.content == Store(Trim(input));
    TrimTextHasNoMark(input, DeleteMark);
    RoundTrip(Trim(input));
    MapAppend(ReadEntry, items, item);
  }

  lemma MapAppend<A, B>(f: A -> B, xs: seq<A>, x: A)
    ensures MapSeq(f, xs + [x]) == MapSeq(f, xs) + [f(x)]
  {
    assert (xs + [x])[..|xs|] == xs;
  }

  lemma MapDelete<A, B>(f: A -> B, xs: seq<A>, i: nat)
    requires i < |xs|
    ensures MapSeq(f, xs[..i] + xs[i + 1..]) == MapSeq(f, xs)[..i] + MapSeq(f, xs)[i + 1..]
  {
    var ys := xs[..i] + xs[i + 1..];
    var l, m := MapSeq(f, ys), MapSeq(f, xs);
    forall k | 0 <= k < |l|
      ensures l[k] == (m[..i] + m[i + 1..])[k]
    {
      if k < i {
        assert ys[k] == xs[k];
      } else {
        assert ys[k] == xs[k + 1];
      }
    }
  }

  /** Deleting an item deletes exactly the matching entry from `getEntries`. */
  lemma DeleteThenRead(items: seq<Item>, i: nat)
    requires i < |items|
    ensures GetEntries(Delete(items, i))
            == GetEntries(items)[..i] + GetEntries(items)[i + 1..]
  {
    MapDelete(ReadEntry, items, i);
  }

  /** The list obtained by submitting `inputs` one after another to an empty
      list. */
  function Fill(inputs: seq<string>): seq<Item>
  {
    if inputs == [] then []
    else Add(Fill(inputs[..|inputs| - 1]), inputs[|inputs| - 1]).items
  }

  /** Up to twelve non-blank texts added to an empty list come back in
      insertion order, trimmed, with the palette's colours in order. */
  lemma {:induction false} FillInOrder(inputs: seq<string>)
    requires |inputs| <= MaxEntries
    requires forall k :: 0 <= k < |inputs| ==>
               !AllWhite(inputs[k]) && DeleteMark !in inputs[k]
    ensures |Fill(inputs)| == |inputs|
    ensures forall k :: 0 <= k < |inputs| ==>
              GetEntries(Fill(inputs))[k] == Entry(Trim(inputs[k]), Palette[k])
  {
    if inputs != [] {
      var n := |inputs| - 1;
      var front := inputs[..n];
      FillInOrder(front);
      var items := Fill(front);
      assert Fill(inputs) == Add(items, inputs[n]).items;
      AddThenRead(items, inputs[n]);
      var es := GetEntries(Fill(inputs));
      assert es == GetEntries(items) + [Entry(Trim(inputs[n]), Palette[n])];
      forall k | 0 <= k < |inputs|
        ensures es[k] == Entry(Trim(inputs[k]), Palette[k])
      {
        if k < n {
          assert front[k] == inputs[k];
          assert es[k] == GetEntries(items)[k];
        } else {
          assert es[k] == Entry(Trim(inputs[n]), Palette[n]);
        }
      }
    }
  }
}
