/** The three stack-based utilities of stack.py: the bracket matcher, string
    reversal and decimal-to-binary conversion. Each runs over a local Stack. */
module StackApplications {
  import opened Wrappers
  import opened Sequences
  import opened Stacks

  // ---------------------------------------------------------------------
  // Balanced brackets

  predicate IsOpening(c: char)
  {
    c == '(' || c == '[' || c == '{'
  }

  predicate IsClosing(c: char)
  {
    c == ')' || c == ']' || c == '}'
  }

  /** close is the closing bracket paired with the opening bracket open
      (the `pairs` table). */
  predicate Matches(open: char, close: char)
  {
    (open == '(' && close == ')') || (open == '[' && close == ']') || (open == '{' && close == '}')
  }

  /** The bracket characters of s, in order; everything else is dropped. */
  function Brackets(s: string): (r: string)
    ensures forall c :: c in r ==> IsOpening(c) || IsClosing(c)
  {
    if s == [] then []
    else (if IsOpening(s[0]) || IsClosing(s[0]) then [s[0]] else []) + Brackets(s[1..])
  }

  /** The grammar of properly nested brackets: empty, or an opening bracket,
      a nested word, its matching closing bracket and another nested word. */
  ghost predicate Dyck(w: string)
    decreases |w|
  {
    w == [] ||
    exists k :: 0 < k < |w| && Matches(w[0], w[k]) && Dyck(w[1..k]) && Dyck(w[k + 1..])
  }

  /** An expression is balanced when its brackets form a nested word. */
  ghost predicate Balanced(expression: string)
  {
    Dyck(Brackets(expression))
  }

  /** The scan of the matcher from stack st: the stack left at the end, or
      None where the matcher answers false early. */
  function Scan(w: string, st: seq<char>): (r: Option<seq<char>>)
    ensures r.Some? ==> |r.value| <= |st| + |w|
    decreases |w|
  {
    if w == [] then Some(st)
    else if IsOpening(w[0]) then Scan(w[1..], st + [w[0]])
    else if IsClosing(w[0]) then
      if st == [] || !Matches(Last(st), w[0]) then None else Scan(w[1..], DropLast(st))
    else Scan(w[1..], st)
  }

  /** w closes the open brackets on st: a nested word, then the closer of the
      top of st, then a word that closes the rest of st. */
  ghost predicate ClosesStack(w: string, st: seq<char>)
    decreases |st|
  {
    if st == [] then Dyck(w)
    else exists k :: 0 <= k < |w| && Dyck(w[..k]) && Matches(Last(st), w[k]) &&
                     ClosesStack(w[k + 1..], DropLast(st))
  }

  /** Characters other than brackets do not affect the scan. */
  lemma {:induction false} ScanIgnoresOthers(s: string, st: seq<char>)
    ensures Scan(s, st) == Scan(Brackets(s), st)
    decreases |s|
  {
    if s != [] {
      var rest := Brackets(s[1..]);
      if IsOpening(s[0]) || IsClosing(s[0]) {
        assert Brackets(s) == [s[0]] + rest;
        assert Brackets(s)[1..] == rest;
        if IsOpening(s[0]) {
          ScanIgnoresOthers(s[1..], st + [s[0]]);
        } else if st != [] && Matches(Last(st), s[0]) {
          ScanIgnoresOthers(s[1..], DropLast(st));
        }
      } else {
        assert Brackets(s) == rest;
        ScanIgnoresOthers(s[1..], st);
      }
    }
  }

  lemma ScanOpening(o: char, x: string, st: seq<char>)
    requires IsOpening(o)
    ensures Scan([o] + x, st) == Scan(x, st + [o])
  {
    assert ([o] + x)[1..] == x;
  }

  lemma ScanClosing(c: char, x: string, st: seq<char>)
    requires st != [] && Matches(Last(st), c)
    ensures Scan([c] + x, st) == Scan(x, DropLast(st))
  {
    assert ([c] + x)[1..] == x;
  }

  /** The decomposition of a nested word w = o u c v, followed by rest. */
  lemma SplitAround(w: string, rest: string, k: int)
    requires 0 < k < |w|
    ensures w + rest == [w[0]] + (w[1..k] + ([w[k]] + (w[k + 1..] + rest)))
  {
    assert w == [w[0]] + w[1..k] + [w[k]] + w[k + 1..];
  }

  /** A nested word leaves any stack as it found it. */
  lemma {:induction false} DyckScan(w: string, rest: string, st: seq<char>)
    requires Dyck(w)
    ensures Scan(w + rest, st) == Scan(rest, st)
    decreases |w|
  {
    if w != [] {
      var k :| 0 < k < |w| && Matches(w[0], w[k]) && Dyck(w[1..k]) && Dyck(w[k + 1..]);
      var o, u, c, v := w[0], w[1..k], w[k], w[k + 1..];
      var tail := [c] + (v + rest);
      SplitAround(w, rest, k);
      ScanOpening(o, u + tail, st);
      DyckScan(u, tail, st + [o]);
      assert Last(st + [o]) == o && DropLast(st + [o]) == st;
      ScanClosing(c, v + rest, st + [o]);
      DyckScan(v, rest, st);
    } else {
      assert w + rest == rest;
    }
  }

  /** Building a nested word from its decomposition. */
  lemma DyckCompose(x: string, k: int)
    requires 0 < k < |x| && Matches(x[0], x[k]) && Dyck(x[1..k]) && Dyck(x[k + 1..])
    ensures Dyck(x)
  {
  }

  lemma SliceOfTail(w: string, k: int)
    requires 0 <= k < |w| - 1
    ensures w[1..][..k] == w[1..k + 1] && w[1..][k] == w[k + 1] && w[1..][k + 1..] == w[k + 2..]
  {
  }

  lemma SliceOfPrefix(w: string, K: int, j: int)
    requires 0 < K && 0 <= j && K + 1 + j < |w|
    ensures var pre := w[..K + 1 + j];
            pre[0] == w[0] && pre[K] == w[K] && pre[1..K] == w[1..K] && pre[K + 1..] == w[K + 1..][..j]
    ensures w[K + 1 + j] == w[K + 1..][j] && w[K + 1 + j + 1..] == w[K + 1..][j + 1..]
  {
  }

  /** A word of brackets that empties the stack st closes st. */
  lemma {:induction false} ScanCloses(w: string, st: seq<char>)
    requires forall c :: c in w ==> IsOpening(c) || IsClosing(c)
    requires Scan(w, st) == Some([])
    ensures ClosesStack(w, st)
    decreases |w|
  {
    if w == [] {
      assert Dyck(w);
    } else if IsOpening(w[0]) {
      var o := w[0];
      var t := w[1..];
      assert forall c :: c in t ==> c in w;
      ScanCloses(t, st + [o]);
      assert Last(st + [o]) == o && DropLast(st + [o]) == st;
      var k :| 0 <= k < |t| && Dyck(t[..k]) && Matches(o, t[k]) && ClosesStack(t[k + 1..], st);
      var K := k + 1;
      SliceOfTail(w, k);
      if st == [] {
        DyckCompose(w, K);
      } else {
        var r := w[K + 1..];
        var j :| 0 <= j < |r| && Dyck(r[..j]) && Matches(Last(st), r[j]) &&
                 ClosesStack(r[j + 1..], DropLast(st));
        var pre := w[..K + 1 + j];
        SliceOfPrefix(w, K, j);
        DyckCompose(pre, K);
        assert Matches(Last(st), w[K + 1 + j]) && ClosesStack(w[K + 1 + j + 1..], DropLast(st));
      }
    } else {
      assert IsClosing(w[0]);
      ScanCloses(w[1..], DropLast(st));
      assert w[..0] == [] && Dyck(w[..0]);
      assert w[0 + 1..] == w[1..];
    }
  }

  /** The scan from the empty stack ends with the empty stack exactly for
      balanced expressions. */
  lemma ScanAcceptsBalanced(expression: string)
    ensures Scan(expression, []) == Some([]) <==> Balanced(expression)
  {
    var b := Brackets(expression);
    ScanIgnoresOthers(expression, []);
    if Scan(b, []) == Some([]) {
      ScanCloses(b, []);
    }
    if Dyck(b) {
      DyckScan(b, [], []);
      assert b + [] == b;
    }
  }

  /** is_balanced_parentheses: true iff the ()[]{} characters of expression
      are properly nested and matched; other characters are ignored. */
  method IsBalancedParentheses(expression: string) returns (balanced: bool)
    ensures balanced <==> Balanced(expression)
  {
    ScanAcceptsBalanced(expression);
    var stack := new Stack<char>(None);
    for i := 0 to |expression|
      invariant stack.maxSize == None
      invariant Scan(expression, []) == Scan(expression[i..], stack.items)
    {
      var c := expression[i];
      assert expression[i..][0] == c && expression[i..][1..] == expression[i + 1..];
      if IsOpening(c) {
        var _ := stack.Push(c);
      } else if IsClosing(c) {
        if stack.IsEmpty() {
          return false;
        }
        var top := stack.Pop();
        if !Matches(top.value, c) {
          return false;
        }
      }
    }
    balanced := stack.IsEmpty();
  }

  /** Scanning a concatenation scans the first part, then the second from
      the stack the first part left. */
  lemma {:induction false} ScanConcat(a: string, b: string, st: seq<char>)
    ensures Scan(a + b, st) == match Scan(a, st) case None => None case Some(st') => Scan(b, st')
    decreases |a|
  {
    if a == [] {
      assert a + b == b;
    } else {
      assert (a + b)[0] == a[0] && (a + b)[1..] == a[1..] + b;
      if IsOpening(a[0]) {
        ScanConcat(a[1..], b, st + [a[0]]);
      } else if IsClosing(a[0]) {
        if st != [] && Matches(Last(st), a[0]) {
          ScanConcat(a[1..], b, DropLast(st));
        }
      } else {
        ScanConcat(a[1..], b, st);
      }
    }
  }

  /** Text without brackets. */
  predicate PlainText(a: string)
  {
    forall c :: c in a ==> !IsOpening(c) && !IsClosing(c)
  }

  /** Text without brackets leaves the stack as it is. */
  lemma {:induction false} ScanPlainText(a: string, st: seq<char>)
    requires PlainText(a)
    ensures Scan(a, st) == Some(st)
    decreases |a|
  {
    if a != [] {
      assert a[0] in a;
      assert forall c :: c in a[1..] ==> c in a;
      ScanPlainText(a[1..], st);
    }
  }

  lemma ScanOneOpening(o: char)
    requires IsOpening(o)
    ensures Scan([o], []) == Some([o])
  {
    assert [o][1..] == [] && [] + [o] == [o];
  }

  /** An opening bracket followed by plain text is never closed. */
  lemma UnclosedIsUnbalanced(o: char, text: string)
    requires IsOpening(o) && PlainText(text)
    ensures !Balanced([o] + text)
  {
    ScanAcceptsBalanced([o] + text);
    ScanConcat([o], text, []);
    ScanOneOpening(o);
    ScanPlainText(text, [o]);
  }

  /** An opening bracket closed by a bracket of another kind is unbalanced,
      whatever plain text stands between them. */
  lemma MismatchedIsUnbalanced(o: char, text: string, c: char)
    requires IsOpening(o) && IsClosing(c) && !Matches(o, c) && PlainText(text)
    ensures !Balanced([o] + text + [c])
  {
    ScanAcceptsBalanced([o] + text + [c]);
    assert [o] + text + [c] == [o] + (text + [c]);
    ScanConcat([o], text + [c], []);
    ScanOneOpening(o);
    ScanConcat(text, [c], [o]);
    ScanPlainText(text, [o]);
  }

  /** Flat bracket pairs, and the empty expression, are balanced. */
  lemma BalancedExamplesFlat()
    ensures Balanced("") && Balanced("()[]{}")
  {
    ScanAcceptsBalanced("");
    ScanAcceptsBalanced("()[]{}");
    assert "()[]{}"[1..] == ")[]{}";
    assert ")[]{}"[1..] == "[]{}";
    assert "[]{}"[1..] == "]{}";
    assert "]{}"[1..] == "{}";
    assert "{}"[1..] == "}";
    assert "}"[1..] == "";
  }

  /** Properly nested brackets are balanced. */
  lemma BalancedExamplesNested()
    ensures Balanced("({[]})") && Balanced("((()))")
  {
    ScanAcceptsBalanced("({[]})");
    assert "({[]})"[1..] == "{[]})";
    assert "{[]})"[1..] == "[]})";
    assert "[]})"[1..] == "]})";
    assert "]})"[1..] == "})";
    assert "})"[1..] == ")";
    assert ")"[1..] == "";
    ScanAcceptsBalanced("((()))");
    assert "((()))"[1..] == "(()))";
    assert "(()))"[1..] == "()))";
    assert "()))"[1..] == ")))";
    assert ")))"[1..] == "))";
    assert "))"[1..] == ")";
    assert ")"[1..] == "";
  }

  /** An opening bracket left open makes an expression unbalanced. */
  lemma UnbalancedExamplesUnclosed()
    ensures !Balanced("(") && !Balanced("()[]{")
  {
    ScanAcceptsBalanced("(");
    assert "("[1..] == "";
    ScanAcceptsBalanced("()[]{");
    assert "()[]{"[1..] == ")[]{";
    assert ")[]{"[1..] == "[]{";
    assert "[]{"[1..] == "]{";
    assert "]{"[1..] == "{";
    assert "{"[1..] == "";
  }

  /** Crossed brackets are unbalanced. */
  lemma UnbalancedExamplesCrossed()
    ensures !Balanced("([)]")
  {
    ScanAcceptsBalanced("([)]");
    assert "([)]"[1..] == "[)]";
    assert "[)]"[1..] == ")]";
    assert ")]"[1..] == "]";
    assert "]"[1..] == "";
  }

  /** The two invalid payroll expressions. */
  lemma UnbalancedExamplesPayroll()
    ensures !Balanced("(salary + bonus") && !Balanced("[pay - tax)")
  {
    UnclosedIsUnbalanced('(', "salary + bonus");
    assert "(salary + bonus" == ['('] + "salary + bonus";
    MismatchedIsUnbalanced('[', "pay - tax", ')');
    assert "[pay - tax)" == ['['] + "pay - tax" + [')'];
  }

  // ---------------------------------------------------------------------
  // String reversal

  /** reverse_string_using_stack: pushes every character, then pops them all
      into the result, which is the character-reversal of text. */
  method ReverseStringUsingStack(text: string) returns (reversedText: string)
    ensures reversedText == Reverse(text)
    ensures |reversedText| == |text|
    ensures forall k :: 0 <= k < |text| ==> reversedText[k] == text[|text| - 1 - k]
  {
    var stack := new Stack<char>(None);
    for i := 0 to |text|
      invariant stack.items == text[..i] && stack.maxSize == None
    {
      var _ := stack.Push(text[i]);
    }
    assert text[..|text|] == text;
    reversedText := "";
    while !stack.IsEmpty()
      invariant reversedText + Reverse(stack.items) == Reverse(text)
      decreases |stack.items|
    {
      ghost var before := stack.items;
      var c := stack.Pop();
      assert reversedText + Reverse(before) == (reversedText + [c.value]) + Reverse(stack.items);
      reversedText := reversedText + [c.value];
    }
    assert reversedText == Reverse(text);
    ReverseIsMirror(text);
  }

  lemma ReverseExamples()
    ensures Reverse("Hello") == "olleH"
  {
    assert DropLast("Hello") == "Hell";
    assert DropLast("Hell") == "Hel";
    assert DropLast("Hel") == "He";
    assert DropLast("He") == "H";
    assert DropLast("H") == "";
  }

  // ---------------------------------------------------------------------
  // Decimal to binary

  /** The character `str(n % 2)` pushes for n > 0. */
  function BitChar(n: int): char
  {
    if n % 2 == 0 then '0' else '1'
  }

  /** The base-2 digits of n, most significant first; none for n <= 0. */
  function BinaryDigits(n: int): (r: string)
    ensures r == [] <==> n <= 0
    ensures forall c :: c in r ==> c == '0' || c == '1'
    decreases n
  {
    if n <= 0 then [] else BinaryDigits(n / 2) + [BitChar(n)]
  }

  /** The value of a big-endian string of '0' and '1' characters. */
  function BinaryValue(s: string): nat
  {
    if s == [] then 0 else 2 * BinaryValue(DropLast(s)) + (if Last(s) == '1' then 1 else 0)
  }

  /** A canonical binary numeral: only '0' and '1', with a leading '1'. */
  predicate IsBinaryNumeral(s: string)
  {
    s != [] && s[0] == '1' && forall c :: c in s ==> c == '0' || c == '1'
  }

  /** For n > 0 the digits are a canonical numeral whose value is n. */
  lemma {:induction false} BinaryDigitsCorrect(n: int)
    requires n > 0
    ensures IsBinaryNumeral(BinaryDigits(n))
    ensures BinaryValue(BinaryDigits(n)) == n
    decreases n
  {
    var d := BinaryDigits(n);
    if n == 1 {
      assert d == "1";
    } else {
      BinaryDigitsCorrect(n / 2);
      var p := BinaryDigits(n / 2);
      assert d == p + [BitChar(n)];
      assert DropLast(d) == p && Last(d) == BitChar(n);
    }
  }

  /** Every canonical numeral is the digit string of its value. */
  lemma {:induction false} BinaryDigitsOfValue(s: string)
    requires IsBinaryNumeral(s)
    ensures BinaryDigits(BinaryValue(s)) == s
    decreases |s|
  {
    if |s| == 1 {
      assert s == "1";
    } else {
      var p := DropLast(s);
      assert p[0] == s[0];
      assert forall c :: c in p ==> c in s;
      BinaryDigitsOfValue(p);
      var v := BinaryValue(s);
      assert BinaryValue(p) > 0;
      assert v / 2 == BinaryValue(p);
      assert Last(s) in s;
      assert v % 2 == (if Last(s) == '1' then 1 else 0);
      assert BitChar(v) == Last(s);
      assert p + [Last(s)] == s;
    }
  }

  lemma BinaryExamples()
    ensures BinaryDigits(42) == "101010"
  {
  }

  /** decimal_to_binary: "0" for 0; for n > 0 the canonical binary numeral of
      n; for n < 0 the loop never runs and the result is empty. */
  method DecimalToBinary(decimalNum: int) returns (binaryResult: string)
    ensures decimalNum == 0 ==> binaryResult == "0"
    ensures decimalNum != 0 ==> binaryResult == BinaryDigits(decimalNum)
    ensures decimalNum < 0 ==> binaryResult == ""
    ensures decimalNum > 0 ==> IsBinaryNumeral(binaryResult) && BinaryValue(binaryResult) == decimalNum
  {
    if decimalNum == 0 {
      return "0";
    }
    var stack := new Stack<char>(None);
    var n := decimalNum;
    while n > 0
      invariant stack.maxSize == None
      invariant BinaryDigits(decimalNum) == BinaryDigits(n) + Reverse(stack.items)
      decreases n
    {
      var remainder := n % 2;
      ghost var before := stack.items;
      var _ := stack.Push(if remainder == 0 then '0' else '1');
      assert DropLast(stack.items) == before;
      n := n / 2;
    }
    binaryResult := "";
    while !stack.IsEmpty()
      invariant binaryResult + Reverse(stack.items) == BinaryDigits(decimalNum)
      decreases |stack.items|
    {
      ghost var before := stack.items;
      var c := stack.Pop();
      assert binaryResult + Reverse(before) == (binaryResult + [c.value]) + Reverse(stack.items);
      binaryResult := binaryResult + [c.value];
    }
    if decimalNum > 0 {
      BinaryDigitsCorrect(decimalNum);
    }
  }
}
