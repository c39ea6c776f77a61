# calc_express, a condition-variable queue and a factorial loop, in Dafny

This project models three pieces of the Hannover C++ user group's code.

- **`calc_express`** (module `CalcExpress`, `calc_express.dfy`): the recursive evaluator of
  arithmetic expressions from the calc_express coding dojo.
  - `calc_express` rejects text that is empty or only whitespace. It then evaluates the
    original text with `calc_express_impl`.
  - `calc_express_impl` splits the text at its first `+` or `-` and evaluates both halves.
  - With no `+` or `-` in the text, it reads a number with `strtod` and accepts nothing after
    it except the end of the text, or `*` or `/` followed by text that it evaluates in turn.
  - Results are `Result<real>` values: `Ok(v)`, or `Err` with one of the three
    `std::runtime_error` messages (`EmptyExpression`, `BadNumber`, `InvalidOp`).
  - `DivisionByZero` is a fourth outcome, for a division by a value that is zero.
  - `remove_white_spaces` is an in-place compaction over an array. It is proved to compute
    `NonSpace`, the whitespace-free text.
  - A small reference grammar, `Sum` and `Term`, gives each well-formed expression an
    independent value. `EvalPrintSum` proves that the evaluator computes that value for
    every printed expression. So `*` and `/` bind tighter than `+` and `-`, and every chain
    groups to the right: `a-b-c` is `a-(b-c)`.
- **The thread-safe `queue<T>`** (module `CondVarQueue`, `cond_var_queue.dfy`): a class
  whose `items` field is the `std::deque`.
  - `Push` appends at the back. `Pop` removes and returns the front element.
  - The client method `PushAllThenDrain` proves the first-in first-out order.
- **`calc_fac`** (module `ThreadFactorial`, `thread_factorial.dfy`): the countdown loop
  over a 32-bit `int`. It is proved to return `f!` for `0 <= f <= 12`, the arguments for
  which no product overflows.

## Model

| member | source | states |
|---|---|---|
| CalcExpress.NonSpaceDropsSpaces | dojos/calc_express/impl.cpp:19-32 | no whitespace character is left, and nothing is left exactly when the input was all whitespace |
| CalcExpress.NonSpace | dojos/calc_express/impl.cpp:21-29 | removing whitespace never makes the text longer |
| CalcExpress.NonSpaceAppend | dojos/calc_express/impl.cpp:21-24 | removing whitespace from a concatenation is removing it from each part, in order (the kept characters keep their order) |
| CalcExpress.NonSpaceKeepsText | dojos/calc_express/impl.cpp:21-24 | a text without whitespace is returned unchanged |
| CalcExpress.NonSpaceIdempotent | dojos/calc_express/impl.cpp:19-32 | removing whitespace twice equals removing it once |
| CalcExpress.NonSpacePrefixStep | dojos/calc_express/impl.cpp:21-24 | one more character of input adds that character to the output unless it is whitespace |
| CalcExpress.RemoveWhiteSpaces | dojos/calc_express/impl.cpp:19-32 | the compaction of a copy of the text, followed by the erase, returns exactly `NonSpace` of the text |
| CalcExpress.SkipSpacesSkipsOnlySpaces | dojos/calc_express/impl.cpp:9-10 | `strtod` skips a prefix made only of whitespace and continues with the rest of the text |
| CalcExpress.SkipSpacesPrefix | dojos/calc_express/impl.cpp:9-10 | after whitespace, `strtod` starts at the first character that is not whitespace |
| CalcExpress.SkipSpaces | dojos/calc_express/impl.cpp:9-10 | the text `strtod` resumes at is no longer than the input and does not start with whitespace |
| CalcExpress.CStringIsPrefix | dojos/calc_express/impl.cpp:16 | `std::string{next_end}` is the part of the rest before its first NUL character |
| CalcExpress.CStringWhole | dojos/calc_express/impl.cpp:16 | a rest without NUL is copied whole |
| CalcExpress.CStringHead | dojos/calc_express/impl.cpp:16 | a rest starting with a character other than NUL keeps it first |
| CalcExpress.CString | dojos/calc_express/impl.cpp:16 | the copied rest is no longer than the rest and holds no NUL |
| CalcExpress.ReadNumeral | dojos/calc_express/impl.cpp:9-16 | a number is read exactly when the text starts with a digit or with `.` and a digit; otherwise the result is BadNumber; a number read is non-negative and its rest is shorter and holds no NUL |
| CalcExpress.ReadFractionShow | dojos/calc_express/impl.cpp:9-16 | `strtod` reads `w.d` as `w` plus the digits of `d` over ten to the number of digits, up to the first character that cannot continue it |
| CalcExpress.ReadBareFraction | dojos/calc_express/impl.cpp:9-16 | `strtod` reads `.d`, with at least one digit, as the digits of `d` over ten to the number of digits |
| CalcExpress.ReadExponent | dojos/calc_express/impl.cpp:9-10 | an exponent part is read only when `e`/`E` is followed by a digit; without one the mantissa and the rest are unchanged |
| CalcExpress.ParseNumber | dojos/calc_express/impl.cpp:6-17 | `parse_number` succeeds exactly when a number starts after the leading whitespace; failure is BadNumber; the rest is strictly shorter than the input |
| CalcExpress.FirstAddOp | dojos/calc_express/impl.cpp:37-41 | the split position holds `+` or `-` and no earlier character does, or there is none and it is the length |
| CalcExpress.Eval | dojos/calc_express/impl.cpp:35-74 | `calc_express_impl` never fails with EmptyExpression; every recursive call is on a strictly shorter text, so it terminates |
| CalcExpress.CalcExpress | dojos/calc_express/impl.cpp:76-84 | the result is EmptyExpression exactly when the input is all whitespace |
| CalcExpress.NoNumberFails | dojos/calc_express/impl.cpp:12-14 | text with no `+` or `-` whose first character after whitespace cannot start a number gives BadNumber |
| CalcExpress.LeadingSignFails | dojos/calc_express/impl.cpp:37-58 | a text starting with `+` or `-` has an empty left operand, so it gives BadNumber |
| CalcExpress.EvalSplit | dojos/calc_express/impl.cpp:43-54 | at the first `+` or `-` the value is the left value plus or minus the right value, with errors passed on |
| CalcExpress.Combine | dojos/calc_express/impl.cpp:52-54 | the sum or difference is a value exactly when both operands are; an error is one operand's; an error is thrown exactly when one operand throws, and a throwing left operand's error wins |
| CalcExpress.ZeroDivisorThenBadOperand | dojos/calc_express/impl.cpp:52-54 | `"1/0-x"` gives BadNumber: the division by zero on the left does not hide the error thrown on the right |
| CalcExpress.EvalAfterNumber | dojos/calc_express/impl.cpp:57-73 | without `+` or `-`: the number alone is the value; a following `*` or `/` scales the value of the rest; anything else is InvalidOp |
| CalcExpress.Scale | dojos/calc_express/impl.cpp:68-73 | an error of the rest is passed on; otherwise the product is always a value, and the quotient is a value exactly when the divisor is not zero, else DivisionByZero |
| CalcExpress.ReadShow | dojos/calc_express/impl.cpp:9-16 | `strtod` reads back the decimal numeral of `n` as `n` when the next character is not a digit, a point, an exponent mark or a hexadecimal `x` |
| CalcExpress.ReadExponentShow | dojos/calc_express/impl.cpp:9-16 | `strtod` reads `n e k` as n times 10 to the k, consuming all of it |
| CalcExpress.ExponentAlone | dojos/calc_express/impl.cpp:57-62 | `n e k` alone evaluates to n times 10 to the k |
| CalcExpress.ParseShow | dojos/calc_express/impl.cpp:6-17 | `parse_number` reads the numeral of `n` after any whitespace |
| CalcExpress.ParseShowAtFront | dojos/calc_express/impl.cpp:6-17 | `parse_number` reads the numeral of `n` at the front of the text |
| CalcExpress.ParseFractionShow | dojos/calc_express/impl.cpp:6-17 | `parse_number` reads `w.d` after any whitespace as its decimal value |
| CalcExpress.EvalShow | dojos/calc_express/impl.cpp:57-62 | the numeral of `n` alone evaluates to `n` |
| CalcExpress.FractionAlone | dojos/calc_express/impl.cpp:57-62 | `w.d` alone evaluates to `w` plus the digits of `d` over ten to the number of digits |
| CalcExpress.NumberAlone | dojos/calc_express/impl.cpp:57-62 | a single number after any whitespace evaluates to that number, in `calc_express_impl` and in `calc_express` |
| CalcExpress.GarbageAfterNumber | dojos/calc_express/impl.cpp:66-73 | a number followed by a character that is not an operator gives InvalidOp |
| CalcExpress.ParseNumeralThenChar | dojos/calc_express/impl.cpp:6-17 | after a numeral and a character that cannot continue it, the rest starts with that character |
| CalcExpress.SpaceBeforeOperatorFails | dojos/calc_express/impl.cpp:78-83 | `a + b`, with a space before the operator, gives InvalidOp: the unstripped text is evaluated |
| CalcExpress.NumeralThenSpace | dojos/calc_express/impl.cpp:66-73 | a numeral followed by a space gives InvalidOp |
| CalcExpress.ScaledNumber | dojos/calc_express/impl.cpp:64-70 | `n * t` and `n / t` are `n` times, or divided by, the value of `t` |
| CalcExpress.EvalPrintTerm | dojos/calc_express/impl.cpp:64-70 | every printed multiplicative chain evaluates to its reference value, grouped to the right |
| CalcExpress.EvalPrintSum | dojos/calc_express/impl.cpp:35-74 | every printed expression evaluates to its reference value: `*` and `/` bind tighter than `+` and `-`, chains group to the right |
| CalcExpress.CalcPrintSum | dojos/calc_express/impl.cpp:76-84 | the same holds for `calc_express` |
| CalcExpress.SubtractionGroupsRight | dojos/calc_express/impl.cpp:43-54 | `a-b-c` evaluates to `a-(b-c)` |
| CalcExpress.DivisionGroupsRight | dojos/calc_express/impl.cpp:64-70 | `a/b/c` evaluates to `a/(b/c)` |
| CalcExpress.ProductBindsTighter | dojos/calc_express/impl.cpp:37-70 | `a+b*c` is `a+(b*c)` and `a*b+c` is `(a*b)+c` |
| CalcExpress.EmptyExpressionCases | dojos/calc_express/tests.cpp:8-24 | `""`, `" "` and `"\t"` give EmptyExpression |
| CalcExpress.SimpleIntegerCases | dojos/calc_express/tests.cpp:26-42 | `"0"`, `"31"`, `"123"` evaluate to 0, 31, 123 |
| CalcExpress.InvalidCharacterCases | dojos/calc_express/tests.cpp:44-53 | `"x"` and `"d"` give BadNumber |
| CalcExpress.GarbageAfterNumberCase | dojos/calc_express/tests.cpp:55-60 | `"123abc"` gives InvalidOp |
| CalcExpress.UnarySignCases | dojos/calc_express/tests.cpp:62-73 | `"+1"` and `"-1"` give BadNumber, where the tests expect 1 and -1 |
| CalcExpress.AdditionCase | dojos/calc_express/tests.cpp:77-80 | `"2+3"` evaluates to 5 |
| CalcExpress.SubtractionCase | dojos/calc_express/tests.cpp:81-84 | `"2-3"` evaluates to -1 |
| CalcExpress.MultiplicationCase | dojos/calc_express/tests.cpp:85-88 | `"2*3"` evaluates to 6 |
| CalcExpress.DivisionCase | dojos/calc_express/tests.cpp:89-92 | `"2/3"` evaluates to 2/3 |
| CalcExpress.SumFirstPrecedenceCase | dojos/calc_express/tests.cpp:97-100 | `"2+3*4"` evaluates to 14 |
| CalcExpress.ProductFirstPrecedenceCase | dojos/calc_express/tests.cpp:101-104 | `"2*3+4"` evaluates to 10 |
| CalcExpress.SpacedOperatorCase | dojos/calc_express/impl.cpp:78-83 | `"1 + 2"` gives InvalidOp |
| CondVarQueue.Queue.constructor | 8-8-2016/cond_var.cpp:12 | a new queue is empty |
| CondVarQueue.Queue.Push | 8-8-2016/cond_var.cpp:18-28 | the element is appended at the back; every earlier element keeps its position |
| CondVarQueue.Queue.Pop | 8-8-2016/cond_var.cpp:30-42 | requires a non-empty queue (the wait); returns the front element and leaves the rest in order |
| CondVarQueue.PushAllThenDrain | 8-8-2016/cond_var.cpp:18-42 | pushing values and then popping until empty hands back the old contents followed by the values, in order, and leaves the queue empty |
| ThreadFactorial.FactMonotone | 8-8-2016/thread.cpp:6-7 | the factorial does not decrease, so every intermediate product is bounded by the final one |
| ThreadFactorial.FallingTimesFact | 8-8-2016/thread.cpp:6-7 | the loop invariant: the product accumulated down to `g`, times `g!`, is `f!` |
| ThreadFactorial.FallingBounded | 8-8-2016/thread.cpp:6-7 | every accumulated product is between 1 and `f!` |
| ThreadFactorial.TwelveFits | 8-8-2016/thread.cpp:6-7 | `12!` fits in a 32-bit `int` |
| ThreadFactorial.ThirteenOverflows | 8-8-2016/thread.cpp:6-7 | `13!` does not fit, so 12 is the largest argument |
| ThreadFactorial.CalcFac | 8-8-2016/thread.cpp:4-8 | for `0 <= f <= 12`, no product overflows and the result is `f!` whatever `result` held; `f == 0` gives 1 |
| ThreadFactorial.ThreeFactorials | 8-8-2016/thread.cpp:14-16 | the three calls of `main` give 6, 120 and 5040 |

## Left out

- Locking: the `std::mutex`, the `std::lock_guard`s and `notify_one` only order concurrent
  calls. The model runs one call at a time.
- CondVarQueue.Queue.Pop: the blocking wait for a non-empty queue is its precondition. A
  concurrent pusher that would wake it is not modelled.
- `main` of `thread.cpp`: its threads, `join` and output to `std::cout` are left out.
  ThreeFactorials runs the three calls one after another.
- ThreadFactorial.CalcFac: requires `0 <= f <= 12`. A negative `f` counts down through
  signed overflow, and `f >= 13` overflows `int`. Both are undefined behaviour in C++.
- ThreadFactorial.CalcFac: the out-parameter `result` is modelled as the return value. The
  loop overwrites it before reading it, so its incoming value plays no part.
- Floating point: values are exact reals, not `double`s. Rounding and the range limits of
  `double` are not modelled. A huge exponent such as `1e999` is an exact real here; it
  would be an infinity in `double`.
- CalcExpress.Scale: `x / 0` gives an infinity or NaN in the source and throws nothing. In
  the model it is the separate outcome DivisionByZero. It never hides an error: when the
  other operand of `+` or `-` throws, Combine returns that error, as the source would.
  Only when nothing throws is DivisionByZero the result.
- CalcExpress.ReadNumeral: reads the decimal form only: digits, an optional fraction, and
  an optional unsigned exponent.
  - A sign before the number or in the exponent is not read. It never reaches
    `parse_number`, because the text is split at every `+` and `-` first.
  - Hexadecimal numbers, `inf`, `infinity` and `nan` are not read. The lemmas about
    characters after a number (GarbageAfterNumber, ParseNumeralThenChar) and about a
    character that cannot start one (NoNumberFails) exclude those characters, so that
    they state what the real `strtod` does.
  - Locale-dependent decimal points are not modelled.
- `std::isspace`: modelled for the C locale on non-negative characters. Passing a negative
  `char` value is undefined in C++ and is not modelled.
- The stale iterator at `impl.cpp:64-65`: `rest` is built up to `found`, an iterator into
  the text before `parse_number` replaced it. That is undefined behaviour. The model takes
  `rest` to be all of the text after the operator, which is the evident intent.
- Operand order: C++ leaves unspecified which operand of `+` or `-` is evaluated first. So
  when both throw, either error may come out. Combine reports the left one. Under `*` and
  `/` only the right operand can throw, because the left one is a number already read.
- tests.cpp:62-73 expects `"+1"` and `"-1"` to give 1 and -1. The code splits at the sign
  and fails on the empty left operand with "bad number". The model follows the code
  (UnarySignCases).
- `8-8-2016/mutex.cpp`, `8-8-2016/thread_save_interface.cpp`, `stm32/demo/src/main.c` and
  the Catch, GMock and Trompeloeil tutorial tests under `11-4-2016` are not part of this
  model. They are other examples, test wiring and a non-compiling sketch.
