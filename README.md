# Go exercises: stringer, word count, picture, Fibonacci closures, greetings

A Dafny model of five small Go programs, with proofs about each of them:

- **Stringer** models the `IPAddr` type, a four-byte array, and its `String`
  method. It formats an address as a dotted quad. The model also has a strict
  parser, used as the inverse of `String`.
- **Maps** models `WordCount` and `WordCountReal`. Both return a map from each
  whitespace-separated field of a string, as `strings.Fields` finds them, to the
  number of times the field occurs.
- **Slices** models `Pic` and `PicReal`. Both build a `dy`-by-`dx` grid of
  `uint8(i*j)`.
- **Closures** models `fibonacci`, `fibonacciReal` and `fibonacciReal2`. Each
  returns a closure whose two captured variables step through the Fibonacci
  numbers. Each closure is a class: its captured variables are the fields, and
  each call is a `Next` call.
- **Greetings** models `Hello`, `Hellos` and `randomMessageFormat` from the
  `greetings` package. `Hello` inserts a name into one of three formats, or
  fails on an empty name. `Hellos` maps each name to its greeting and stops at
  the first empty name.
- **GoBasics** holds the Go semantics the others share:
  - `uint8` truncation;
  - 64-bit `int` wrap-around;
  - an `Option` type, used for nil results and errors.

Each loop from the source is a `method` with a loop proved against a
specification function:

- `Dotted` for `String`;
- `Tally(Fields(s))` for both word counts;
- `IsPic` and the `uint8(i*j)` rule for both pictures;
- `Output(k)`, the `k`-th Fibonacci number wrapped to 64 bits, for every
  generator;
- `Greeting` and the last-occurrence rule `LastIndex` for `Hellos`.

Properties of those functions are proved as lemmas.

## Model

| member | source | states |
|---|---|---|
| GoBasics.Uint8 | 11-go-tour-training-slice/main.go:17 | `uint8(n)` keeps values below 256 and is congruent to `n` modulo 256 |
| GoBasics.Int64 | 13-go-tour-trainig-function-fibonacci/main.go:13 | a Go `int` result lies in the signed 64-bit range; it equals `n` when `n` is in range and is congruent to `n` modulo 2^64 |
| GoBasics.Int64Add | 13-go-tour-trainig-function-fibonacci/main.go:13 | wrapping each operand before a wrapped addition does not change the result |
| Stringer.Decimal | 14-go-tour-stringer/main.go:13 | `Sprintf("%v", x)` of an unsigned value is a canonical digit string (no leading zero) that denotes `x` |
| Stringer.ComponentLength | 14-go-tour-stringer/main.go:13 | a byte is written with 1, 2 or 3 digits, by magnitude |
| Stringer.String | 14-go-tour-stringer/main.go:10-20 | the loop's result is the components in index order, joined by single dots |
| Stringer.PartialStep | 14-go-tour-stringer/main.go:12-17 | one iteration appends the next component, then a dot unless it is the last one |
| Stringer.DecimalUnique | 14-go-tour-stringer/main.go:13 | a canonical digit string is the rendering of its own value, so the rendering is injective |
| Stringer.ParseComponent | 14-go-tour-stringer/main.go:13 | an accepted component is exactly the rendering of the parsed byte |
| Stringer.RoundTrip | 14-go-tour-stringer/main.go:10-20 | parsing the output of `String` gives back the four bytes |
| Stringer.Injective | 14-go-tour-stringer/main.go:10-20 | two addresses with the same output are the same address |
| Stringer.SplitDotted | 14-go-tour-stringer/main.go:12-17 | splitting the output at dots gives each component's rendering in order |
| Stringer.DottedShape | 14-go-tour-stringer/main.go:12-17 | `n` components give `n - 1` dots, a digit at each end, and between `2n - 1` and `4n - 1` characters |
| Stringer.AddressShape | 14-go-tour-stringer/main.go:10-20 | an address prints with exactly three dots, none leading or trailing, in 7 to 15 characters |
| Stringer.PiecesAreDecimals | 14-go-tour-stringer/main.go:12-17 | the output has four dot-separated pieces; piece `k` is the canonical rendering of byte `k`, at most 3 digits long |
| Stringer.Examples | 14-go-tour-stringer/main.go:23-26 | the two hosts print as `127.0.0.1` and `8.8.8.8` |
| Maps.IsSpace | 12-go-tour-training-map/main.go:15 | the separator test of `strings.Fields`, `unicode.IsSpace`: exactly the code points `\t`, `\n`, `\v`, `\f`, `\r`, space, U+0085, U+00A0, U+1680, U+2000 to U+200A, U+2028, U+2029, U+202F, U+205F and U+3000, the characters with the Unicode White_Space property |
| Maps.WordLength | 12-go-tour-training-map/main.go:15 | the leading run of non-space characters is maximal: it contains no space, and any character after it is one |
| Maps.Fields | 12-go-tour-training-map/main.go:15 | every field is non-empty and contains no space |
| Maps.FieldsEmpty | 12-go-tour-training-map/main.go:15 | there are no fields exactly when every character is a space |
| Maps.FieldsSplit | 12-go-tour-training-map/main.go:15 | a space separates: the fields of `a + [space] + b` are those of `a` followed by those of `b` |
| Maps.FieldsOfWord | 12-go-tour-training-map/main.go:15 | a non-empty space-free string is a single field |
| Maps.Get | 12-go-tour-training-map/main.go:34 | a read of a map key: the key's value if present, otherwise the zero value `0`, which `ret[ss[i]]++` increments |
| Maps.TallySnoc | 12-go-tour-training-map/main.go:17-23 | one more field raises that field's count by one, or adds it with count 1, and changes nothing else |
| Maps.TallyPrefix | 12-go-tour-training-map/main.go:34 | the count of the first `k + 1` fields is the count of the first `k` with field `k` incremented |
| Maps.WordCount | 12-go-tour-training-map/main.go:11-26 | the result maps each field to the number of its occurrences |
| Maps.WordCountReal | 12-go-tour-training-map/main.go:29-37 | incrementing the zero value of a missing key gives the same occurrence count |
| Maps.VariantsAgree | 12-go-tour-training-map/main.go:11-37 | both variants return the same map for every input |
| Maps.WordCountKeys | 12-go-tour-training-map/main.go:11-26 | the keys are the distinct fields, each value is that field's multiplicity (at least 1), and the empty string is never a key |
| Maps.WordCountEmpty | 12-go-tour-training-map/main.go:11-26 | the map is empty exactly when the input is empty or all spaces |
| Maps.SumIncrement | 12-go-tour-training-map/main.go:34 | one increment adds one to the sum of the counts |
| Maps.TallySum | 12-go-tour-training-map/main.go:29-37 | the counts add up to the number of fields |
| Maps.WordCountSum | 12-go-tour-training-map/main.go:11-26 | the values of the word count add up to the number of fields of the input |
| Slices.RangeCount | 11-go-tour-training-slice/main.go:14-16 | the number of iterations of `range n` over an integer: `n`, or none when `n` is negative |
| Slices.Pic | 11-go-tour-training-slice/main.go:9-24 | the result has `dy` rows of `dx` entries each (none for a negative size); entry `[i][j]` is `uint8(i*j)` |
| Slices.PicReal | 11-go-tour-training-slice/main.go:27-36 | a freshly allocated grid of `dy` rows, each of `dx` entries when there are rows, whose entry `[x][y]` is `uint8(x*y)`; callable on every input that does not make `make` panic, including `dy == 0` with a negative `dx` |
| Slices.VariantsAgree | 11-go-tour-training-slice/main.go:9-36 | on every input where `PicReal` does not panic both variants have the same shape and the same entries |
| Slices.PicUnique | 11-go-tour-training-slice/main.go:9-24 | the shape and the entry rule determine the picture |
| Slices.PicBorderAndSymmetry | 11-go-tour-training-slice/main.go:17 | row 0 and column 0 are zero, and a square picture is symmetric |
| Slices.PicNegative | 11-go-tour-training-slice/main.go:14-16 | a negative height gives no rows; a negative width gives empty rows |
| Closures.Step | 13-go-tour-trainig-function-fibonacci/main.go:13 | the wrapped sum of two consecutive outputs is the next output |
| Closures.FibAdd | 13-go-tour-trainig-function-fibonacci/main.go:9-19 | the addition law `Fib(m+n+1) = Fib(m+1)Fib(n+1) + Fib(m)Fib(n)` |
| Closures.FibMonotone | 13-go-tour-trainig-function-fibonacci/main.go:9-19 | the Fibonacci numbers never decrease |
| Closures.DoublingOdd | 13-go-tour-trainig-function-fibonacci/main.go:9-19 | `Fib(2n+1) = Fib(n)^2 + Fib(n+1)^2` |
| Closures.DoublingEven | 13-go-tour-trainig-function-fibonacci/main.go:9-19 | `Fib(2n) = Fib(n)Fib(n+1) + (Fib(n+1) - Fib(n))Fib(n)` |
| Closures.Fib24 | 13-go-tour-trainig-function-fibonacci/main.go:9-19 | `Fib(23) = 28657` and `Fib(24) = 46368` |
| Closures.Fib47 | 13-go-tour-trainig-function-fibonacci/main.go:9-19 | `Fib(46) = 1836311903` and `Fib(47) = 2971215073` |
| Closures.LargestInt64 | 13-go-tour-trainig-function-fibonacci/main.go:13 | `Fib(92)` is below 2^63 and `Fib(93)` is not |
| Closures.ExactUpTo92 | 13-go-tour-trainig-function-fibonacci/main.go:12-18 | calls 0 to 92 return the exact Fibonacci number; call 93 is the first to wrap |
| Closures.Fibonacci.constructor | 13-go-tour-trainig-function-fibonacci/main.go:10 | captures `last, new = 0, 1` |
| Closures.Fibonacci.Next | 13-go-tour-trainig-function-fibonacci/main.go:12-18 | returns the old `last`, which is `Output(calls)`, and shifts the pair one place along the sequence |
| Closures.FibonacciReal.constructor | 13-go-tour-trainig-function-fibonacci/main.go:23 | captures `total, nextTotal = 0, 1` |
| Closures.FibonacciReal.Next | 13-go-tour-trainig-function-fibonacci/main.go:24-28 | returns the old `total`, which is `Output(calls)`, and shifts the pair one place along |
| Closures.FibonacciReal2.constructor | 13-go-tour-trainig-function-fibonacci/main.go:33 | captures `x, y = 0, 1` |
| Closures.FibonacciReal2.Next | 13-go-tour-trainig-function-fibonacci/main.go:34-37 | returns the old `x`, which is `Output(calls)`, and shifts the pair one place along |
| Closures.RunFibonacci | 13-go-tour-trainig-function-fibonacci/main.go:9-19 | `n` calls on a fresh `fibonacci()` closure return `Output(0)`, …, `Output(n-1)` |
| Closures.RunFibonacciReal | 13-go-tour-trainig-function-fibonacci/main.go:22-29 | `n` calls on a fresh `fibonacciReal()` closure return `Output(0)`, …, `Output(n-1)` |
| Closures.RunFibonacciReal2 | 13-go-tour-trainig-function-fibonacci/main.go:32-38 | `n` calls on a fresh `fibonacciReal2()` closure return `Output(0)`, …, `Output(n-1)` |
| Closures.VariantsAgree | 13-go-tour-trainig-function-fibonacci/main.go:9-38 | the three generators return the same sequence |
| Closures.Independent | 13-go-tour-trainig-function-fibonacci/main.go:9-19 | each `fibonacci()` call captures its own variables: advancing one closure leaves another at its start |
| Closures.FirstTen | 13-go-tour-trainig-function-fibonacci/main.go:40-46 | the program prints 0, 1, 1, 2, 3, 5, 8, 13, 21, 34 |
| Greetings.Sprintf | 06-add-range/greeting/hello.go:17 | `fmt.Sprintf(format, name)` with a string argument: the first `%v` is replaced by the argument; `SprintfSplice` is its specification |
| Greetings.SprintfSplice | 06-add-range/greeting/hello.go:17 | filling the single `%v` verb yields the text before it, then the argument, then the text after it |
| Greetings.RandomMessageFormat | 06-add-range/greeting/hello.go:42-50 | the chosen format is one of the three formats |
| Greetings.FormatGreeting | 06-add-range/greeting/hello.go:16-17 | filling each format with a name gives the corresponding greeting |
| Greetings.Hello | 06-add-range/greeting/hello.go:10-19 | an empty name gives an empty message and the "name cannot be empty" error; any other name gives the chosen greeting and a nil error |
| Greetings.GreetingHasName | 07-testing/greeting/greeting_test.go:10-18 | the greeting contains the name as a whole word, preceded by a space and followed by `.` or `!`; this is the test's `\b` name `\b` match when the name begins and ends with a word character, as the tested `Gladys` does; the test itself runs against the 07-testing copy of the package, which is not part of this model |
| Greetings.Hellos | 06-add-range/greeting/hello.go:22-40 | an empty name anywhere gives a nil map and the error. Otherwise: a nil error; the keys are exactly the names; a name's value is the greeting drawn at its last occurrence. An empty list gives an empty map |
| Greetings.HellosStep | 06-add-range/greeting/hello.go:36 | storing the next name's greeting keeps the key set and last-occurrence rule for the longer prefix |
| Greetings.HellosValuesAreGreetings | 06-add-range/greeting/hello.go:22-40 | every value of a successful result is `Hello`'s message for its key under some format choice |
| Greetings.LastOccurrence | 06-add-range/greeting/hello.go:36 | every name that occurs has a last occurrence |

## Left out

- The square-root, SQL, HTTP and command-line programs are not part of this model. Nor are the `main` functions, except for the hosts and the ten printed values, which are covered as lemmas and methods.
- Printing, `pic.Show` and `wc.Test` are left out; they are I/O or external test harnesses.
- `rand.Intn(3)` becomes a parameter. `Hello` takes `pick < 3`. `Hellos` takes one pick per name, in order.
- Go's `int` is modelled as 64 bits wide; on a 32-bit platform the wrap comes earlier.
- Slices.Pic: rows are sequence values, so slice headers, capacities and the (absent) sharing of backing arrays between rows are not modelled. A zero-row result is an empty sequence, so nil and empty are not distinguished.
- Slices.PicReal: one rectangular `array2` stands for the outer `make` and the per-row `make`s, so the rows cannot alias. The precondition `dy >= 0 && (dy > 0 ==> dx >= 0)` stands for the panic that `make` raises on a negative length: a negative `dy` always panics, a negative `dx` only when some row is made.
- Maps.Fields: works on code points. Invalid UTF-8 bytes are not modelled.
- Greetings.Sprintf: `Sprintf` is modelled only for a format with one `%v` verb and a string argument, which is all the three formats need.
- Greetings.Hello: an error is modelled as its message text, so the identity of the error value is not modelled.
- Greetings.Hellos: the nil map on failure is `None`. A successful result is always `Some`; an empty successful map is `Some(map[])`.
