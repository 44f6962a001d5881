/** The translation object: loops over the infix text, appending to the postfix text and counting pending
    operators in the current scope. Each method is proved against the functions of RegexPostfix. */
module PostfixConverter {
  import opened Results
  import opened RegexLang
  import opened RegexNfa
  import Spec = RegexPostfix

  class Converter {
    const infix: Word
    var postfix: Word
    var stack: seq<Spec.Scope>
    var scope: Spec.Scope

    constructor (infix: Word)
      ensures this.infix == infix && Now() == Spec.START
    {
      this.infix := infix;
      postfix, stack, scope := [], [], Spec.NEW_SCOPE;
    }

    /** The fields as one value. */
    ghost function Now(): Spec.State
      reads this
    {
      Spec.State(postfix, scope, stack)
    }

    method PopOneConcat()
      modifies this
      ensures Now() == Spec.PopOneConcat(old(Now()))
    {
      if scope.nConcat > 1 {
        scope := scope.(nConcat := scope.nConcat - 1);
        postfix := postfix + [CONCAT];
      }
    }

    method PopAllConcat()
      modifies this
      ensures Now() == Spec.PopAllConcat(old(Now()))
    {
      while scope.nConcat > 1
        invariant stack == old(stack) && scope == old(scope).(nConcat := scope.nConcat)
        invariant scope.nConcat <= old(scope).nConcat && (old(scope).nConcat >= 1 ==> scope.nConcat >= 1)
        invariant old(scope).nConcat < 1 ==> scope.nConcat == old(scope).nConcat
        invariant postfix + Spec.Times([CONCAT], scope.nConcat - 1)
               == old(postfix) + Spec.Times([CONCAT], old(scope).nConcat - 1)
      {
        scope := scope.(nConcat := scope.nConcat - 1);
        postfix := postfix + [CONCAT];
      }
      scope := scope.(nConcat := scope.nConcat - 1);
    }

    method PopAllPipe()
      modifies this
      ensures Now() == Spec.PopAllPipe(old(Now()))
    {
      while scope.nPipe > 0
        invariant stack == old(stack) && scope == old(scope).(nPipe := scope.nPipe)
        invariant scope.nPipe <= old(scope).nPipe && (old(scope).nPipe >= 0 ==> scope.nPipe >= 0)
        invariant old(scope).nPipe < 0 ==> scope.nPipe == old(scope).nPipe
        invariant postfix + Spec.Times([PIPE], scope.nPipe) == old(postfix) + Spec.Times([PIPE], old(scope).nPipe)
      {
        scope := scope.(nPipe := scope.nPipe - 1);
        postfix := postfix + [PIPE];
      }
      scope := scope.(nPipe := scope.nPipe - 1);
    }

    method DealWithUnary(c: Byte) returns (r: Result<()>)
      requires Spec.IsUnary(c)
      modifies this
      ensures r.Thrown? <==> old(scope).nConcat == 0
      ensures Now() == old(Now()).(postfix := postfix)
      ensures r.Ok? ==> postfix == old(postfix) + [Spec.ToChar(c)]
    {
      if scope.nConcat == 0 {
        return Thrown("[Syntax error] Regex can't have a unary op here.");
      }
      postfix := postfix + [Spec.ToChar(c)];
      return Ok(());
    }

    /** Reads the bounds of a repetition that starts at `i`. */
    method ParseRepetitions(i: nat) returns (r: Result<Spec.Bounds>)
      ensures r.Ok? == Spec.ParseRepetitions(infix, i, 0, Spec.INT_MAX, false).Ok?
      ensures r.Ok? ==> r == Spec.ParseRepetitions(infix, i, 0, Spec.INT_MAX, false)
    {
      hide Spec.SkipEmptyChars, Spec.SkipNumber, Spec.Stoi;
      ghost var goal := Spec.ParseRepetitions(infix, i, 0, Spec.INT_MAX, false);
      var min, max := 0, Spec.INT_MAX;
      var sawOneComma := false;
      var next := i;
      while next < |infix|
        invariant Spec.ParseRepetitions(infix, next, min, max, sawOneComma) == goal
        decreases |infix| - next
      {
        next := Spec.SkipEmptyChars(next, infix);
        if next < |infix| && infix[next] == Spec.CLOSE_BRACE {
          if !sawOneComma {
            max := min;
          }
          if min < 0 || min > max {
            return Thrown("[Syntax error] An {n, m} expression must have 0 <= n <= m");
          }
          return Ok(Spec.Bounds(next, min, max));
        } else if next < |infix| && infix[next] == Spec.COMMA && !sawOneComma {
          sawOneComma := true;
          next := next + 1;
        } else {
          var end := Spec.SkipNumber(next, infix);
          var number := Spec.Stoi(infix[next..end]);
          if number.None? {
            break;
          }
          if !sawOneComma {
            min := number.value;
          } else {
            max := number.value;
          }
          next := end;
        }
      }
      return Thrown("[Syntax error] Invalid syntax for a {...} expression");
    }

    /** Appends what repeats `pattern`, which is already the last operand of the postfix text. */
    method TranslateRepetitions(pattern: Word, min: int, max: int)
      modifies `postfix
      ensures postfix == old(postfix) + Spec.Expansion(pattern, min, max)
    {
      if min == 0 && max == Spec.INT_MAX {
        postfix := postfix + [ZERO_OR_MORE];
      } else if min == 0 {
        postfix := postfix + [ZERO_OR_ONE];
        AppendTimes(pattern + [ZERO_OR_ONE, CONCAT], max - 1);
      } else if max == Spec.INT_MAX {
        AppendTimes(pattern + [CONCAT], min - 2);
        postfix := postfix + (pattern + [ONE_OR_MORE, CONCAT]);
      } else {
        AppendTimes(pattern + [CONCAT], min - 1);
        AppendTimes(pattern + [ZERO_OR_ONE, CONCAT], max - min);
      }
    }

    method AppendTimes(text: Word, k: int)
      modifies `postfix
      ensures postfix == old(postfix) + Spec.Times(text, k)
    {
      var i := 0;
      while i < k
        invariant 0 <= i && (k >= 0 ==> i <= k)
        invariant postfix + Spec.Times(text, k - i) == old(postfix) + Spec.Times(text, k)
      {
        assert Spec.Times(text, k - i) == text + Spec.Times(text, k - i - 1);
        postfix := postfix + text;
        i := i + 1;
      }
      assert Spec.Times(text, k - i) == [];
    }

    /** One round of the translation: consumes the character at `i` and what belongs to it. */
    method Next(i: nat) returns (r: Result<nat>)
      requires i < |infix|
      modifies this
      ensures r.Ok? == Spec.StepAt(infix, i, old(Now())).Ok?
      ensures r.Ok? ==> Spec.StepAt(infix, i, old(Now())) == Ok(Spec.Next(Now(), r.value))
    {
      hide Spec.ParseRepetitions, Spec.Expansion;
      var c := infix[i];
      if c == Spec.OPEN {
        PopOneConcat();
        scope := scope.(groupStart := |postfix|);
        stack := stack + [scope];
        scope := Spec.NEW_SCOPE;
        return Ok(i + 1);
      } else if stack != [] && c == Spec.CLOSE {
        PopAllConcat();
        PopAllPipe();
        scope := stack[|stack| - 1];
        scope := scope.(nConcat := scope.nConcat + 1);
        stack := stack[..|stack| - 1];
        return Ok(i + 1);
      } else if c == Spec.BAR {
        if scope.nConcat == 0 {
          return Thrown("[Syntax error] '|' operator expression expects tokens on the left.");
        }
        PopAllConcat();
        scope := scope.(nPipe := scope.nPipe + 1);
        return Ok(i + 1);
      } else if c == Spec.BACKSLASH {
        PopOneConcat();
        postfix := postfix + [if i + 1 < |infix| then infix[i + 1] else 0];
        return Ok(i + 2);
      } else if c == Spec.OPEN_BRACE {
        var bounds := ParseRepetitions(i + 1);
        if bounds.Thrown? {
          return Thrown(bounds.message);
        }
        if scope.groupStart < 0 {
          return Thrown("[Syntax error] A {...} expression expects tokens on the left.");
        }
        if scope.groupStart > |postfix| {
          return Thrown("basic_string::substr");
        }
        TranslateRepetitions(postfix[scope.groupStart..], bounds.value.min, bounds.value.max);
        return Ok(bounds.value.end + 1);
      } else if Spec.IsUnary(c) {
        var done := DealWithUnary(c);
        if done.Thrown? {
          return Thrown(done.message);
        }
        return Ok(i + 1);
      } else {
        PopOneConcat();
        scope := scope.(nConcat := scope.nConcat + 1, groupStart := |postfix|);
        postfix := postfix + [Spec.ToChar(c)];
        return Ok(i + 1);
      }
    }

    /** Translates the whole infix text. */
    method Convert() returns (r: Result<()>)
      modifies this
      ensures r.Ok? == Spec.Convert(infix).Ok?
      ensures r.Ok? ==> postfix == Spec.Convert(infix).value
    {
      stack := [];
      scope := Spec.NEW_SCOPE;
      postfix := [];
      var i := 0;
      while i < |infix|
        invariant Spec.Scan(infix, i, Now()) == Spec.Scan(infix, 0, Spec.START)
        decreases |infix| - i
      {
        hide Spec.StepAt;
        var next := Next(i);
        if next.Thrown? {
          return Thrown(next.message);
        }
        i := next.value;
      }
      PopAllConcat();
      PopAllPipe();
      return Ok(());
    }
  }
}
