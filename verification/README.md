# Verified models of four cores of the repository

Four parts of the repository that have nothing to do with each other but their author's interests, each
modelled in the form its C code has and proved against what it is for.

**The multiple-precision library of V7 Unix and the knapsack mail cipher on top of it**
(`knapsack/unix-v7/mp`, `knapsack/unix-v7/xsend`). Numbers are little-endian arrays of 15-bit digits whose
`len` carries the sign. Addition, subtraction by complement, column multiplication with a hand-kept overflow
count, long division, greatest common divisor, modular inverse, modular and exact powers, square root and
radix input and output are proved exact on integers; from these the cipher is proved to give back what was
sent, for every password and every random sequence whose first guess has a top digit other than zero. With a
top digit of zero the library leaves its own number format; what it then computes is modelled step by step on
signed shorts (`Shorts.dfy`), which agree with the integers on all proper operands (`ShortLaws.dfy`), and shown
not to give back what was sent. The machine is the one the text was written for (`Machine.dfy`): 16-bit `int`
and `short`, 32-bit `long`, arithmetic right shift, the high half of a `long` first.

**miniforth** (`miniforth/mitch`): a dictionary of threaded code, an inner interpreter and an outer one that
compiles or executes. Compiling `: n w1 .. wk ;` and performing `n` is proved to do what interpreting
`w1 .. wk` one by one does, down to the turns of the inner interpreter's loop and its return stack. What each
word does to the stack is stated for all cells by its name (`WordLaws.dfy`).

**The run time of NCL** (`picol`): the bucket allocator over the bytes of a 64K memory, the quoting of lists,
and the glob and regular-expression matchers, each against a declarative language.

**The fuse file manager** (`fuse1/fusec.c`): clients and daemons that meet over path descriptors and sleep in
the kernel. A state machine whose steps run from one sleep to the next; invariants of every interleaving,
and, for runs in which clients take turns, that no assert fails, that a daemon reads byte for byte what its
client sent, and that the client goes on with the reply to its own request. What these bytes are is stated one by one
(`FuseLaws.dfy`).

`dafny verify dfyconfig.toml` checks the whole project.

## What the proofs found in the code

- `msub` returns b - a when a is negative and b is negative or has length 0 (`AddSub.Subtract`); it is exact
  if and only if that branch is not taken or both answers agree (`AddSub.SubtractExact`), and -2 - -1 is an
  input that shows it (`AddSub.SubtractSlips`). `mcmp` inherits this: for two negative numbers of equal
  length its sign is reversed (`AddSub.Compare`).
- `mdiv` gives the remainder the sign of a*b, so a = q*b + r holds if and only if b > 0 or the division is
  exact (`LongDivision.SignedIdentityExact`); on magnitudes it always holds.
- `mkx` can make a guess whose top digit is zero. Then the scaling factor of `m_div` does not fit a short
  (`Knapsack.ScaleOverflows`), and for every divisor with a leading zero the remainder has no positive digit:
  it is not a number unless it is zero (`LeadingZero.RemainderIsNoNumber`). `mkx` accepts such a guess, and
  what `invert` makes of it is not an inverse (`LeadingZero.GuessInverted`, `TopDigit.WrongIsNoInverse`), so a
  key is written and messages come back changed. For every password, whatever comes back is what was sent,
  for all random sequences whose guess has the top digit t, if and only if t is not zero
  (`TopDigit.TopDigitDecides`).
- `decipher` reads past its number if and only if that number has fewer than four digits in use: the remainder,
  or the product when it is too short to be divided (`Knapsack.Decipher`). With a key from a top digit other than zero
  that takes two NUL characters at the end, and they are enough when message number and inverse have six digits
  between them (`KnapsackRuns.TwoNulsReadPast`, `Knapsack.SendAndReceive`).
- The top of the heap, `heap_brk`, wraps in 16 bits, and `malloc` does not notice it if the wrapped value is
  below its limit. The block then takes all memory up to the end, the stack with it, and bytes of a block in
  use if and only if the new top is above the bottom of the heap (`Malloc.RoundDamage`); if not, the next fresh
  block may (`Malloc.NextDamage`). `Malloc.OneLargeBlock` and `Malloc.FourLargeBlocks` are heaps on which it
  happens.
- `DaemonWriteC` and `ClientOperationC` copy any length into the 256 bytes of a daemon's buffer. Memory behind
  it is safe from a client's write if and only if that is of at most 244 bytes (`FuseState.WriteFits`), and from
  a reply if and only if that is of at most 256 (`FuseState.CopyStaysInside`).
- `SplitList` tests the pointer and not the character after skipping blanks, so trailing blanks read as one
  more empty element; `lappend` adds exactly one element if and only if the old text is complete
  (`ListQuoting.AppendsOne`).
- `re_matchp` returns -1 when the first match is at the end of the text. The header of `re.c` calls inverted
  classes broken; the code computes them as intended, and the model follows the code.
- When a daemon refuses an open, IOMan gives the client's descriptor back while it is still linked. The
  daemon's link count is accounted for if and only if it has refused no open (`FuseSafety.EveryRun`), and
  `FuseSafety.RefusalKeepsALink` is a run in which it is not.

## Model

| member | source | states |
|---|---|---|
| Machine.SignBitIsCarry | knapsack/unix-v7/mp/madd.c:9-17 | after a 16-bit sum bit 15 is set exactly for a carry or a borrow, and masking it off gives the digit modulo 2^15 |
| Mints.Strip | knapsack/unix-v7/mp/util.c:46-58 | mcan: normal form of the same value |
| Mints.FromInt | knapsack/unix-v7/mp/util.c:59-78 | itom: a normal number with the value of the int |
| AddSub.AddDigits | knapsack/unix-v7/mp/madd.c:7-27 | the two carry loops: digits plus carry are the sum of the magnitudes |
| AddSub.AddMagnitudes | knapsack/unix-v7/mp/madd.c:2-36 | m_add: exact sum, at most one digit longer, normal for a normal longer operand |
| AddSub.Add | knapsack/unix-v7/mp/madd.c:37-68 | madd: c = a + b for every combination of signs, and normal form is kept |
| AddSub.SubtractDigits | knapsack/unix-v7/mp/madd.c:76-95 | the borrow loops: digits and final borrow are the difference of the magnitudes |
| AddSub.Uncomplement | knapsack/unix-v7/mp/madd.c:96-100 | the borrow path: complementing every digit and adding one negates modulo the radix power |
| AddSub.SubtractMagnitudes | knapsack/unix-v7/mp/madd.c:69-108 | m_sub: exact difference in normal form, also when the second operand is greater |
| AddSub.StripDifference | knapsack/unix-v7/mp/madd.c:101-107 | the end of m_sub: length from the top non-zero digit, sign from the borrow |
| AddSub.Subtract | knapsack/unix-v7/mp/madd.c:109-146 | msub: a - b off the branch with a sign too many, b - a on it; the recursion with madd and m_sub ends |
| AddSub.SubtractExact | knapsack/unix-v7/mp/madd.c:129-134 | msub is exact if and only if that branch is not taken or the operands are equal in value |
| AddSub.SubtractSlips | knapsack/unix-v7/mp/madd.c:129-134 | a concrete pair on which msub is wrong |
| AddSub.Compare | knapsack/unix-v7/mp/util.c:79-88 | mcmp: unequal lengths decide alone; orders normal numbers, and equal lengths in any form, reversed for two negative ones of equal length |
| AddSub.LengthOrder | knapsack/unix-v7/mp/util.c:79-88 | signed lengths alone already order normal numbers |
| Multiplication.Accumulate | knapsack/unix-v7/mp/mult.c:79-87 | tradd: sum and overflow count together gain exactly the product |
| Multiplication.SumColumn | knapsack/unix-v7/mp/mult.c:40-73 | a column's wrapped sum and its overflow count are the true column total, and the count stays below bit 15 |
| Multiplication.Emit | knapsack/unix-v7/mp/mult.c:28-33 | the low 15 bits and the shifted rest, with the count as its high half, lose nothing |
| Multiplication.ColumnsMakeProduct | knapsack/unix-v7/mp/mult.c:34-78 | the column totals, each at its place, add up to the product |
| Multiplication.MultiplyMagnitudes | knapsack/unix-v7/mp/mult.c:34-78 | m_mult: exact product for every length in range, all digits stored, normal for normal operands that are not zero |
| Multiplication.NothingLeftOver | knapsack/unix-v7/mp/mult.c:34-78 | the accumulator is zero after the last column |
| Multiplication.Multiply | knapsack/unix-v7/mp/mult.c:2-27 | mult: exact product for every combination of signs |
| ShortDivision.DivideDigits | knapsack/unix-v7/mp/mout.c:99-118 | s_div's loop: quotient digits and remainder divide the number exactly |
| ShortDivision.DivideMagnitude | knapsack/unix-v7/mp/mout.c:99-118 | s_div: exact division by one digit, normal for a normal dividend |
| ShortDivision.OneLeadingZero | knapsack/unix-v7/mp/mout.c:111-117 | such a quotient has at most one leading zero |
| ShortDivision.Divide | knapsack/unix-v7/mp/mout.c:78-98 | sdiv: exact on magnitudes, both results negative when the signs differ |
| LongDivision.TrialQuotient | knapsack/unix-v7/mp/mdiv.c:43-54 | m_trq: the least of BASE - 1 and three digits over two, within 32-bit longs |
| LongDivision.TrialQuotientOffByOne | knapsack/unix-v7/mp/mdiv.c:43-54 | Knuth's theorem: that estimate is the true digit or one more |
| LongDivision.SubtractMultiple | knapsack/unix-v7/mp/mdiv.c:24-32 | m_dsb's first loop takes q times the divisor from the window, up to the final borrow |
| LongDivision.AddBack | knapsack/unix-v7/mp/mdiv.c:34-41 | m_dsb's second loop adds the divisor back |
| LongDivision.SubtractOrRepair | knapsack/unix-v7/mp/mdiv.c:21-42 | m_dsb reports exactly the estimate that is one too large, and repairs it |
| LongDivision.QuotientDigitAt | knapsack/unix-v7/mp/mdiv.c:87-91 | one turn of the descending loop leaves the window's remainder, below the divisor |
| LongDivision.DivideDown | knapsack/unix-v7/mp/mdiv.c:86-91 | the descending loop divides the scaled dividend exactly |
| LongDivision.ScaleFactor | knapsack/unix-v7/mp/mdiv.c:78-81 | the scaling factor fits a short and keeps the divisor's length |
| LongDivision.Unscale | knapsack/unix-v7/mp/mdiv.c:92-97 | the remainder divided by the factor is the true one, with nothing left over |
| LongDivision.QuotientLength | knapsack/unix-v7/mp/mdiv.c:98-102 | stripping one leading zero of the quotient is enough for normal operands |
| LongDivision.DivideLong | knapsack/unix-v7/mp/mdiv.c:78-106 | scaling, descending loop and unscaling together: a = q * b + r with r < b |
| LongDivision.DivideMagnitudes | knapsack/unix-v7/mp/mdiv.c:55-106 | m_div: a = q * b + r with 0 <= r < b for every dividend and every divisor with a non-zero top digit, in normal form for a normal dividend |
| LongDivision.Div | knapsack/unix-v7/mp/mdiv.c:2-20 | mdiv: fatal exactly for a divisor of length 0, else exact on magnitudes with the signs it gives |
| LongDivision.SignedIdentityExact | knapsack/unix-v7/mp/mdiv.c:2-20 | a = q * b + r on signed numbers if and only if b > 0 or r = 0 |
| LeadingZero.ByMinimum | knapsack/unix-v7/mp/mout.c:99-118 | s_div by -32768, the factor that does not fit: minus the digits, one place down |
| LeadingZero.RemainderIsNoNumber | knapsack/unix-v7/mp/mdiv.c:78-97 | by every divisor of two or more digits with a leading zero the remainder has no positive digit, and is a number if and only if it is zero |
| LeadingZero.ModulusByGuess | knapsack/unix-v7/mp/mdiv.c:78-106 | quotient and remainder of a 69-bit modulus by a guess with a leading zero, as the short and long registers come to them |
| ShortLaws.SumLaw | knapsack/unix-v7/mp/madd.c:2-36 | m_add on shorts: of digits the exact sum |
| ShortLaws.DifferenceLaw | knapsack/unix-v7/mp/madd.c:69-108 | m_sub on shorts: of digits the exact difference, of either sign |
| ShortLaws.AddLaw | knapsack/unix-v7/mp/madd.c:37-68 | madd on shorts: a + b for every combination of signs |
| ShortLaws.SubtractLaw | knapsack/unix-v7/mp/madd.c:109-146 | msub on shorts: a - b, and b - a on the branch with a sign too many |
| ShortLaws.MultiplyLaw | knapsack/unix-v7/mp/mult.c:2-78 | mult on shorts: the exact product, unless both lengths are 0 |
| ShortLaws.DivideShortLaw | knapsack/unix-v7/mp/mout.c:78-118 | sdiv on shorts: quotient and remainder of the magnitudes, with their signs, for every divisor but -32768 |
| ShortLaws.EstimateLaw | knapsack/unix-v7/mp/mdiv.c:43-54 | m_trq on shorts: the least of BASE - 1 and three digits over two |
| ShortLaws.TakeMultipleLaw | knapsack/unix-v7/mp/mdiv.c:21-42 | m_dsb on shorts: takes the multiple that fits, and reports whether it was one less than asked for |
| ShortLaws.DivideDownLaw | knapsack/unix-v7/mp/mdiv.c:86-91 | the descending loop on shorts divides what is in the low digits |
| ShortLaws.DivideLaw | knapsack/unix-v7/mp/mdiv.c:2-106 | mdiv on shorts, by a number whose top digit is not zero: a result if and only if it is not asked to divide by nothing or to read below an array, and then the quotient and remainder of the integers |
| Euclid.GreatestCommonDivisor | knapsack/unix-v7/mp/gcd.c:2-18 | gcd: the greatest common divisor of the magnitudes |
| NumberTheory.GcdIsGreatest | knapsack/unix-v7/mp/gcd.c:2-18 | what is called so divides both numbers and every common divisor divides it |
| Euclid.CofactorsStep | knapsack/unix-v7/mp/gcd.c:28-37 | one turn of invert's loop keeps the alternating congruences and the weight x * Anew + y * Aold = b |
| Euclid.Invertible | knapsack/unix-v7/mp/gcd.c:38-39 | the parity fix-up at the end |
| Euclid.Invert | knapsack/unix-v7/mp/gcd.c:19-46 | invert: a * c is congruent to the divisor modulo b, and 0 < c < b for coprime operands |
| LeadingZero.GuessAccepted | knapsack/unix-v7/mp/gcd.c:2-18 | gcd takes that guess for prime to the modulus |
| LeadingZero.GuessInverted | knapsack/unix-v7/mp/gcd.c:19-46 | and invert gives a number for it |
| SquareRoot.NewtonStep | knapsack/unix-v7/mp/msqrt.c:20-30 | the mean of x and a / x stays at or above the root, and not going down means being there |
| SquareRoot.FirstApproximation | knapsack/unix-v7/mp/msqrt.c:12-17 | the starting point is at or above the root |
| SquareRoot.Sqrt | knapsack/unix-v7/mp/msqrt.c:2-37 | msqrt: ends, b = floor(sqrt a) and r = a - b * b, fatal exactly for a negative argument |
| Powers.DigitPower | knapsack/unix-v7/mp/pow.c:11-19 | fifteen squarings append one digit to the exponent |
| Powers.ModPower | knapsack/unix-v7/mp/pow.c:2-24 | pow: a^b modulo c, with the sign of a^b, whenever no power on the way vanishes modulo c |
| Powers.CoprimeNeverVanishes | knapsack/unix-v7/mp/pow.c:2-24 | for a of either sign prime to c > 1 none does |
| Powers.ModulusAbovePowers | knapsack/unix-v7/mp/pow.c:28-36 | rpow's made-up modulus is above every power on the way |
| Powers.Power | knapsack/unix-v7/mp/pow.c:25-40 | rpow: a^n exactly for a > 0 |
| RadixIO.ReadNumber | knapsack/unix-v7/mp/mout.c:3-42 | m_in: the value, the end-of-file flag and the text left, for every text |
| RadixIO.MinusRead | knapsack/unix-v7/mp/mout.c:3-42 | digits up to the end of a line are the sum of the digits at their places in the radix, and after a minus sign its negative |
| RadixIO.WriteGroup | knapsack/unix-v7/mp/mout.c:66-69 | the inner loop of m_out stays inside the buffer and prints up to ten digits |
| RadixIO.WriteNumber | knapsack/unix-v7/mp/mout.c:43-77 | m_out: groups of ten, no leading zero, never below its 7 * len bytes, and reading the text gives the number |
| RadixIO.PrintAndRead | knapsack/unix-v7/mp/mout.c:3-77 | m_in after m_out is the identity on values |
| RadixIO.DigitsLeft | knapsack/unix-v7/mp/mout.c:62-71 | a radix of at least 8 needs at most five digits for one of 15 bits |
| KnapsackKeys.ModulusRange | knapsack/unix-v7/xsend/lib.c:63-76 | the modulus always has 69 bits |
| KeyLaws.SeedIs | knapsack/unix-v7/xsend/lib.c:63-69 | the seed: 123 times all thirteen bytes, and each index times the bytes after it, in 16 bits |
| KeyLaws.ModulusIs | knapsack/unix-v7/xsend/lib.c:70-75 | the modulus: a number from 4 to 7 at 64^11, and eleven pieces of six bits at the powers of 64 below |
| KeyLaws.XorBit | knapsack/unix-v7/xsend/lib.c:30 | the exclusive or: a bit is set if and only if the bits of the operands differ |
| KeyLaws.GuessDigit | knapsack/unix-v7/xsend/lib.c:30 | a digit of the guess has the bits in which draw and key byte differ, and is zero exactly when they are equal |
| KeyLaws.GuessIs | knapsack/unix-v7/xsend/lib.c:26-32 | the guess is its four digits, the first one drawn at the top |
| KeyLaws.WeightIs | knapsack/unix-v7/xsend/lib.c:45-56 | the weight of a bit of a character: its place among the 15 bits of two characters, above a digit with nine bits of noise |
| KnapsackKeys.NextCoprime | knapsack/unix-v7/xsend/lib.c:33-39 | from every guess below the modulus a number prime to it is reached below the modulus |
| KnapsackKeys.MessageCongruent | knapsack/unix-v7/xsend/xsend.c:75-90 | a message summed with the public weights is the secret sum times the multiplier, modulo the modulus |
| KnapsackKeys.CharacterPlace | knapsack/unix-v7/xsend/lib.c:45-56 | the bits of a character select the character at its own place, beside bounded noise |
| KnapsackKeys.PlainMessage | knapsack/unix-v7/xsend/xget.c:124-139 | a secret sum is four digits: the noise, and two characters each |
| KnapsackKeys.DecipherUndoes | knapsack/unix-v7/xsend/xget.c:124-139 | multiplying by the inverse and reducing gives the secret sum |
| KnapsackRuns.PlainCharacters | knapsack/unix-v7/xsend/xget.c:124-139 | the characters in the secret number are the seven bits of those sent, and it has four digits in use unless the last two are NUL |
| KnapsackRuns.SevenBitsAre | knapsack/unix-v7/xsend/xget.c:124-139 | of characters of seven bits all are sent |
| KnapsackRuns.TwoNulsReadPast | knapsack/unix-v7/xsend/xget.c:124-139 | from six digits in message number and inverse on, decipher stays inside its number if and only if the last two characters are not both NUL |
| KnapsackRuns.NulsForExample | knapsack/unix-v7/xsend/xget.c:124-139 | two NULs at the end with and without reading past: a letter and five NULs, and six NULs |
| KnapsackRuns.ReadsMessage | knapsack/unix-v7/xsend/xget.c:124-139 | whatever their lengths, it stays inside unless the last two characters are NUL |
| KnapsackRuns.NonzeroComesBack | knapsack/unix-v7/xsend/xget.c:28-33 | with a top digit that is not zero only what was sent comes back |
| Knapsack.Secret.constructor | knapsack/unix-v7/xsend/lib.c:77-90 | comminit: the constants |
| Knapsack.Secret.MakeModulus | knapsack/unix-v7/xsend/lib.c:63-76 | mkb: the modulus that the key and the random sequence determine |
| Knapsack.Secret.GuessMultiplier | knapsack/unix-v7/xsend/lib.c:26-32 | the four-digit guess, normal exactly when its top digit is not zero |
| Knapsack.Secret.MakeMultiplier | knapsack/unix-v7/xsend/lib.c:26-40 | mkx: from a top digit that is not zero always a normal multiplier; from any guess the one that gcd stops at, on shorts for a leading zero |
| Knapsack.ScaleOverflows | knapsack/unix-v7/mp/mdiv.c:78-81 | the scaling factor fits a short if and only if the divisor's top digit is not zero |
| Knapsack.Secret.MakePublic | knapsack/unix-v7/xsend/lib.c:41-62 | mka: weight times multiplier modulo the modulus, for all 42 |
| Knapsack.Sender.constructor | knapsack/unix-v7/xsend/xsend.c:75-100 | init and mkcd: every table entry is what the weights of that character's bits add up to |
| Knapsack.Sender.FillRow | knapsack/unix-v7/xsend/xsend.c:75-84 | one position of the table, the others unchanged |
| Knapsack.Sender.Encipher | knapsack/unix-v7/xsend/xsend.c:85-90 | encipher: the message number is the sum over all six characters |
| Knapsack.Decipher | knapsack/unix-v7/xsend/xget.c:124-139 | decipher: exactly when it stays inside its number, and then the characters of the product modulo b |
| Knapsack.Enroll | knapsack/unix-v7/xsend/enroll.c:18-34 | the public weights of the multiplier that mkx comes to, and one for every key and random sequence with a top digit that is not zero |
| Knapsack.Unlock | knapsack/unix-v7/xsend/xget.c:25-32 | the reader's side: the same modulus, the same multiplier and what invert makes of it |
| Knapsack.InvertRaw | knapsack/unix-v7/xsend/xget.c:32 | invert of a multiplier that came from a leading zero, by the steps on shorts |
| Knapsack.SendAndReceive | knapsack/unix-v7/xsend/xget.c:124-139 | for every key, random sequence and six characters: what comes back; for a top digit that is not zero what was sent, with the condition for decipher to read past its number |
| TopDigit.WrongIsNoInverse | knapsack/unix-v7/mp/gcd.c:19-46 | the number that invert gives for the guess with a leading zero is not its inverse modulo the modulus |
| TopDigit.OthersComeBack | knapsack/unix-v7/xsend/xget.c:28-33 | for every password there is a random sequence with top digit zero after which other characters come back than were sent |
| TopDigit.TopDigitDecides | knapsack/unix-v7/xsend/lib.c:26-40 | for every password and top digit: after all random sequences with that top digit whatever comes back is what was sent, if and only if it is not zero |
| Threaded.StepsAdd | miniforth/mitch/walk.c:35-43 | turns of the loop compose |
| Threaded.WordRuns | miniforth/mitch/walk.c:29-49 | the loop of walk, entered at a word, realizes the word's meaning and restores the return stack |
| Threaded.BodyRuns | miniforth/mitch/initdict.c:45-64 | a definition's cells, run to their unnester, realize the meaning of its body |
| Definitions.LookupIsWord | miniforth/mitch/find.c:37-48 | what is found is in the dictionary |
| Definitions.RunKept | miniforth/mitch/find.c:49-76 | later definitions change the meaning and the nesting of no earlier word |
| Definitions.CompiledIsBody | miniforth/mitch/handle_compile.c:7-49 | compiled names are well-formed threaded code |
| Definitions.CompiledMeans | miniforth/mitch/handle_compile.c:7-49 | compiled names mean what interpreting them means, for any data |
| Definitions.DefinitionMeans | miniforth/mitch/handle_compile.c:7-49 | the compiler is correct: `: n w1 .. wk ;` makes n mean w1 .. wk in sequence |
| Definitions.WordMade | miniforth/mitch/initdict.c:77-108 | a word made by variable or constant pushes its cell or its number for all data; every other name is found and means what it did |
| Definitions.RunKeepsCells | miniforth/mitch/initdict.c:124-134 | no word that is run makes or loses a variable |
| Definitions.StoreThenFetch | miniforth/mitch/initdict.c:124-134 | `v ! v @` leaves what was stored, and changes nothing else |
| WordLaws.PlusLaw | miniforth/mitch/initdict.c:7-10 | `+`: the two cells on top become their sum, modulo 2^32 |
| WordLaws.MinusLaw | miniforth/mitch/initdict.c:12-16 | `x y -` leaves what y has to be added to for x |
| WordLaws.TimesLaw | miniforth/mitch/initdict.c:18-21 | `*`: the product, modulo 2^32 |
| WordLaws.DivideLaw | miniforth/mitch/initdict.c:23-27 | `x y /`: the quotient rounded towards zero |
| WordLaws.DivideByZero | miniforth/mitch/initdict.c:23-27 | dividing by zero is not defined |
| WordLaws.PrintLaw | miniforth/mitch/initdict.c:29-33 | `.` takes the top off the stack and puts it after what has been printed |
| WordLaws.DropLaw | miniforth/mitch/initdict.c:35-38 | `drop` leaves all cells but the top |
| WordLaws.DupLaw | miniforth/mitch/stack.c:26-29 | `dup` leaves the top twice |
| WordLaws.DepthLaw | miniforth/mitch/stack.c:16-24 | `depth` pushes how many cells have been pushed since the stack was empty |
| WordLaws.ByeLaw | miniforth/mitch/initdict.c:40-43 | `bye` stops the program and changes nothing |
| WordLaws.TooFewCells | miniforth/mitch/stack.c:6-14 | a word that needs one cell or two is not defined on a stack with fewer |
| WordLaws.MinusUndoesPlus | miniforth/mitch/initdict.c:7-16 | `x y + y -` leaves x, for all cells |
| WordLaws.DropUndoesDup | miniforth/mitch/initdict.c:35-38 | `dup drop` leaves all cells as they were |
| WordLaws.NumberLaw | miniforth/mitch/number.c:39-52 | a numeral stands for the sum of its digits at their places, modulo 2^32 |
| WordLaws.LiteralLaw | miniforth/mitch/handle_compile.c:26-39 | a numeral that is no word pushes that value |
| Forth.System.constructor | miniforth/mitch/initdict.c:136-165 | init_dictionary: each of the seventeen names stands for its function, no other name is found, only ; is immediate |
| Forth.NamesStand | miniforth/mitch/initdict.c:136-165 | which of the seventeen names is which function |
| Forth.System.PushCell | miniforth/mitch/stack.c:11-15 | push on the stack in place |
| Forth.System.Pop | miniforth/mitch/stack.c:6-10 | pop from the stack in place |
| Forth.System.DoPrimitive | miniforth/mitch/initdict.c:7-43 | every primitive in place does what its specification says |
| Forth.System.Turn | miniforth/mitch/walk.c:35-43 | one turn of walk on the global variables |
| Forth.System.CallThrough | miniforth/mitch/walk.c:29-33 | the call through a code field |
| Forth.System.Perform | miniforth/mitch/walk.c:45-49 | perform: ends, with the word's meaning and the return stack as before |
| Forth.System.Comma | miniforth/mitch/dictionary.c:24-33 | comma and compile append one cell |
| Forth.System.Header | miniforth/mitch/find.c:49-70 | header: a new first word, unless the name is too long |
| Forth.System.Immediate | miniforth/mitch/find.c:78-81 | immediate marks the newest word and changes no other lookup |
| Forth.System.Find | miniforth/mitch/find.c:37-48 | find: the newest word of the name |
| Forth.System.ParseNumber | miniforth/mitch/number.c:39-52 | is_number in base ten, with wrap-around |
| Forth.System.CompileLiteral | miniforth/mitch/initdict.c:117-122 | literal appends the literal word and the number |
| Forth.System.StartDefinition | miniforth/mitch/initdict.c:65-76 | colon: parses a name, makes its header, and compiles from then on |
| Forth.System.EndDefinition | miniforth/mitch/initdict.c:52-58 | semicolon appends the unnester and interprets from then on |
| Forth.VariableServes | miniforth/mitch/initdict.c:98-108 | in a dictionary in order, what variable appends is a word for a new cell, and the order is kept |
| Forth.System.DefineVariable | miniforth/mitch/initdict.c:98-108 | variable: a word that pushes a cell no variable had, with the dictionary in order and every other name as it was (Serves) |
| Forth.ConstantServes | miniforth/mitch/initdict.c:82-92 | in a dictionary in order, what constant appends is a word for its number, and the order is kept |
| Forth.System.DefineConstant | miniforth/mitch/initdict.c:82-92 | constant: a word that pushes the number that was on the stack, with the dictionary in order and every other name as it was (Serves) |
| Forth.System.HandleWord | miniforth/mitch/handle_compile.c:7-49 | handle_word in each of its branches: compile, interpret, parse (: ; variable constant), number, unknown |
| Forth.System.InterpretAll | miniforth/mitch/handle_compile.c:7-49 | names interpreted one after the other come to what their meanings compose to |
| Forth.System.Define | miniforth/mitch/initdict.c:52-76 | `: name names ;` leaves exactly the dictionary the theorem is about |
| Forth.System.DefineAndPerform | miniforth/mitch/handle_compile.c:7-49 | end to end: defining and performing is interpreting |
| Forth.KeepIn | miniforth/mitch/initdict.c:98-134 | `variable v  v ! v @` from any state in order: the stack is as it was |
| Forth.Session | miniforth/mitch/handle_compile.c:7-49 | from a new system: `: sq dup * ;`, `sq`, and the square through a new variable |
| Forth.Calculate | miniforth/mitch/handle_compile.c:7-49 | from a new system: two numbers and `+`, `-` or `*` leave their sum, difference or product |
| Glob.MatchClass | picol/util.c:68-96 | the class loop finds a member that takes the character if and only if there is one, and then the closing bracket |
| Glob.MatchPiece | picol/util.c:55-120 | one turn of the outer loop takes a character if and only if the piece does |
| Glob.MatchStar | picol/util.c:39-53 | a star: some suffix of the string is in the language of the rest |
| Glob.PieceIs | picol/util.c:32-120 | a pattern begins with a star, a question mark, a backslash and the character after it, or a character for itself |
| Glob.EndIs | picol/util.c:21-27 | at the end of the pattern the string must have ended too |
| Glob.RangeIs | picol/util.c:68-96 | a bracketed range takes what lies between its ends, in either order |
| Glob.ListIs | picol/util.c:68-96 | a bracketed list takes exactly its characters |
| Glob.PlainMatchesItself | picol/util.c:13-121 | a pattern of plain characters matches itself and nothing else |
| Glob.StringMatch | picol/util.c:13-121 | Tcl_StringMatch returns 1 if and only if the string is in the language of the pattern, and ends |
| Regex.MatchCharClass | picol/re.c:373-396 | matchcharclass decides membership in the class |
| Regex.ClassIsUnion | picol/re.c:344-396 | for any character but the minus sign a class is the union of what its positions contribute |
| Regex.MinusInClass | picol/re.c:373-396 | a minus sign is in a class if and only if the first position that decides about it is an escape, or is the first or the last |
| Regex.RangeTakes | picol/re.c:344-348 | a range takes what lies between its ends, and them |
| Regex.PlainClassTakes | picol/re.c:373-396 | a class without backslash and minus takes exactly its characters |
| Regex.EscapesTake | picol/re.c:354-371 | in a class `\d`, `\w` and `\s` take digits, word characters and blanks, their capitals all others, and any other escape its letter |
| Regex.MatchOne | picol/re.c:398-421 | matchone: whether an atom takes a character |
| Regex.AtomsTake | picol/re.c:328-342 | which characters the atoms for digits, word characters, blanks, anything and one character take |
| Regex.InvertedTakes | picol/re.c:398-421 | an inverted class takes exactly what the class does not |
| Regex.MatchStar | picol/re.c:423-431 | matchstar accepts if and only if some run of the atom followed by the rest does |
| Regex.MatchPlus | picol/re.c:433-439 | matchplus, with a run that is not empty |
| Regex.MatchQuestion | picol/re.c:441-449 | matchquestion, with at most one character |
| Regex.AfterRun | picol/re.c:423-449 | a run of an item and an accepting rest is an accepting whole |
| Regex.BeforeRest | picol/re.c:423-449 | and every accepting whole is one of these |
| Regex.EntriesParse | picol/re.c:474-495 | a table of atoms, each with or without its quantifier, and an anchor at the end or none, is read as these items in this order |
| Regex.MatchPattern | picol/re.c:474-495 | matchpattern accepts if and only if some prefix of the text is in the language |
| Regex.Search | picol/re.c:106-127 | re_matchp: the least accepting index, and -1 for none or for the end of the text |
| RegexCompile.TokensOfSpelling | picol/re.c:132-288 | any sequence of symbols, written as a pattern, is read back as the same symbols |
| RegexCompile.SymbolIs | picol/re.c:142-283 | the symbol of every character outside classes, by character code |
| RegexCompile.BracketsAre | picol/re.c:235-269 | a bracketed text is the class of that text, with a caret in front the inverted one |
| RegexCompile.ClassEndInside | picol/re.c:247-261 | where a class ends does not depend on what surrounds it |
| RegexCompile.Compiler.CopyClass | picol/re.c:247-269 | copying a class text fails exactly when the buffer has no room for it |
| RegexCompile.Compiler.Symbol | picol/re.c:142-283 | one turn of the compiling loop fills one entry and disturbs no earlier class text |
| RegexCompile.Compiler.Compile | picol/re.c:132-288 | re_compile: the first 29 symbols and the sentinel, failing exactly when the class texts overflow, with a NUL before each class text |
| RegexCompile.SameLanguage | picol/re.c:284-287 | what an earlier pattern left after the sentinel plays no part |
| RegexCompile.Compiler.Match | picol/re.c:102-104 | re_match end to end: pattern text to least index |
| ListQuoting.Buf.AppElemC | picol/buf.c:80-92 | BufAppElemC escapes exactly the characters that need it |
| ListQuoting.Buf.AppElemS | picol/buf.c:94-120 | BufAppElemS appends the quoted element, after a blank unless it is the first |
| ListQuoting.QuotedLooks | picol/buf.c:94-120 | an element is written as it is if it is not empty and has only characters from 33 to 122 without the backslash, and between braces otherwise |
| ListQuoting.EscapedLooks | picol/buf.c:80-92 | between braces exactly the other characters get a backslash, wherever they stand |
| ListQuoting.EscapedLength | picol/buf.c:80-92 | and so many characters more are written |
| ListQuoting.ElemLen | picol/buf.c:137-165 | ElemLen: where the element ends, and a count that is large enough for it |
| ListQuoting.ElemDecode | picol/buf.c:168-195 | ElemDecode: the element without braces and escapes |
| ListQuoting.ElementLooks | picol/buf.c:137-195 | text between braces without backslash and closing brace is an element, blanks included; so is a bare run up to the next blank or the end |
| ListQuoting.BackslashRead | picol/buf.c:168-195 | between braces the character after a backslash stands for itself |
| ListQuoting.QuotedDecodes | picol/buf.c:80-195 | a quoted element, whatever is before and after it, reads back as itself |
| ListQuoting.SplitList | picol/ncl.c:827-847 | SplitList: the elements of every list text that ends no escape in the air |
| ListQuoting.FormList | picol/ncl.c:1509-1517 | FormList: the list text |
| ListQuoting.PlainListLooks | picol/ncl.c:1509-1517 | the list of elements that need no care is these with single blanks between |
| ListQuoting.ListsRoundTrip | picol/ncl.c:827-847 | SplitList(FormList(xs)) = xs for all lists |
| ListQuoting.ListAppend | picol/ncl.c:1391-1405 | lappend: the value with the quoted items after it |
| ListQuoting.AppendsOne | picol/ncl.c:1391-1405 | one appended item is one more element if and only if the old text was complete |
| ListQuoting.AppendsAll | picol/ncl.c:1391-1405 | lappend on a complete list appends exactly the items |
| ListQuoting.Split | picol/ncl.c:888-941 | split: the pieces between the delimiters, or the words between blanks |
| ListQuoting.WordsAreRuns | picol/ncl.c:888-941 | without a delimiter the pieces are all the maximal runs of non-blanks, in order, none empty |
| ListQuoting.Join | picol/ncl.c:856-885 | join: the elements with the delimiter between them |
| ListQuoting.SplitThenJoin | picol/ncl.c:856-941 | join(split(s, d), d) = s for every text and delimiter |
| ListQuoting.JoinThenSplit | picol/ncl.c:856-941 | split(join(xs, d), d) = xs for delimiter-free elements if and only if xs is not the list of one empty element |
| Malloc.WhichBucket | picol/malloc.c:50-64 | which_bucket: the first bucket whose blocks are large enough, panic exactly above 16384 |
| Malloc.Heap.constructor | picol/malloc.c:16-28 | the empty heap satisfies the invariant |
| Malloc.BucketSizes | picol/malloc.c:23-24 | the twelve block sizes |
| Malloc.HeaderIs | picol/malloc.c:30-35 | the bytes of a block in order: barriers, and its capacity or 0 when it is free |
| Malloc.LinkIs | picol/malloc.c:30-35 | the bytes of a free list in order: each block holds the address of the next, the last one 0 |
| Malloc.ShortageIs | picol/malloc.c:101-109 | when the test for memory fails, in 16 bits |
| Malloc.Heap.Malloc | picol/malloc.c:79-124 | malloc: when it fails and why; when it goes round the end of memory, which bytes it writes; else a zero payload in a block that was not live, from the free list or the top, nothing else changed, and the invariant kept |
| Malloc.RoundDamage | picol/malloc.c:101-123 | a block that goes round takes all memory from the old top and all below the new one; it meets a block in use if and only if the new top is above the bottom of the heap; no heap with that top contains it |
| Malloc.NextDamage | picol/malloc.c:101-123 | otherwise the next fresh block meets one if and only if there is one and it reaches over the bottom |
| Malloc.OneLargeBlock | picol/malloc.c:101-123 | a heap whose first block goes round |
| Malloc.FourLargeBlocks | picol/malloc.c:101-123 | a heap whose fourth block goes over the header of the first |
| Malloc.Heap.Free | picol/malloc.c:126-149 | free: panics exactly for a block that is not live; else the block is free, once, and the invariant kept |
| Malloc.Heap.Move | picol/malloc.c:159-162 | realloc to a larger block keeps every byte and zeroes the rest |
| Malloc.Heap.Realloc | picol/malloc.c:151-163 | realloc in all its cases |
| Malloc.Heap.Store | picol/malloc.c:79-124 | a program's writes to its own payloads keep the invariant |
| Malloc.Taken | picol/malloc.c:86-98 | taking a block off its free list keeps blocks, lists and headers in order |
| Malloc.Broken | picol/malloc.c:101-116 | so does a block at the top of the heap |
| Malloc.Freed | picol/malloc.c:143-145 | so does putting a block on its list |
| Malloc.PayloadKept | picol/malloc.c:92-118 | payloads do not overlap headers |
| Malloc.Heap.Separate | picol/malloc.c:101-116 | two blocks, and so two payloads, never overlap |
| Malloc.OneOwner | picol/malloc.c:101-116 | every byte of the heap is in exactly one block |
| Malloc.OneMoreAllocated | picol/malloc.c:26-28 | the 16-bit counters balance against the free list through every change, wrap-around included |
| FuseState.FilledHoldsRequest | fuse1/fusec.c:883-925 | whatever was in the buffer, and whatever is copied too much, the request is at its start |
| FuseLaws.RequestIs | fuse1/fuse2.h:4-26 | the six bytes of a request: operation code, path, a, b, and the count or length in two bytes; and what its payload is, for a WritLn up to the first end of line or NUL |
| FuseLaws.BufferIs | fuse1/fusec.c:883-925 | these bytes are what a client leaves at the start of the buffer |
| FuseLaws.AnswerIs | fuse1/fusec.c:946-975 | what a reply of a status, a size and data tells a client |
| FuseLaws.FoldIs | fuse1/fusec.c:213-217 | folding a name: without the eighth bit, and small letters as capitals |
| FuseLaws.DaemonSpells | fuse1/fusec.c:1024 | the name that opens a daemon |
| FuseLaws.FitsIs | fuse1/fusec.c:851-910 | how long a call may be for the buffer to hold its request |
| FuseLaws.OpenDaemonIs | fuse1/fusec.c:733-757 | a daemon whose name is in use is refused, one of 27 characters or more stops at an assert, any other gets the path under its folded name |
| FuseLaws.GivesUp | fuse1/fusec.c:689-701 | a client whose daemon does not pause stops at the assert after exactly fifty ticks |
| FuseState.CopyStaysInside | fuse1/fusec.c:577-585 | MoveToKernel spares the memory behind the buffer, whatever is copied, if and only if the copy ends inside it |
| FuseState.WriteFits | fuse1/fusec.c:897-910 | for a client's write that means at most 244 bytes |
| Fuse.Kernel.ParsedNameEquals | fuse1/fusec.c:633-650 | ParsedNameEquals: equality after folding |
| Fuse.Kernel.CopyParsedName | fuse1/fusec.c:599-612 | CopyParsedName: the folded name |
| Fuse.Kernel.FindDaemon | fuse1/fusec.c:657-687 | FindDaemon: the first daemon of the device with that folded name |
| Fuse.Kernel.LineEnd | fuse1/fusec.c:912-921 | the loop that cuts a line |
| Fuse.Kernel.FillBuffer | fuse1/fusec.c:883-925 | header and payload into the daemon's buffer, byte for byte |
| Fuse.Kernel.OpenDaemon | fuse1/fusec.c:733-757 | OpenDaemon |
| Fuse.Kernel.OpenClient | fuse1/fusec.c:821-858 | OpenClient up to its sleep |
| Fuse.Kernel.ClientOperation | fuse1/fusec.c:873-942 | ClientOperationC up to its sleep |
| Fuse.Kernel.Perform | fuse1/fusec.c:657-1062 | any step the system allows, on the descriptors in place: it comes to the state of the machine, stays safe or stops at an assert, and by the rules meets none and keeps everyone in phase |
| Fuse.Kernel.RunAll | fuse1/fusec.c:657-1062 | any schedule, on the descriptors in place: peers point back, links are accounted for and names are unique unless an assert fails; by the rules none fails |
| Fuse.RunFromBoot | fuse1/fusec.c:657-1062 | from the start, and with every daemon's path in order after a schedule by the rules |
| Fuse.OnlyTheReply | fuse1/fusec.c:946-975 | of all that is in the buffer a client only sees the reply |
| FuseSafety.SetPeerBalances | fuse1/fusec.c:715-719 | SetPeer leaves, at every path, the difference between link_count and the links there are |
| FuseSafety.ClearPeerBalances | fuse1/fusec.c:725-729 | and so does ClearPeer |
| FuseSafety.ClearPeerUndoes | fuse1/fusec.c:715-729 | ClearPeer after SetPeer is the identity and fails no assert |
| FuseSafety.SendSafe | fuse1/fusec.c:689-701 | a linked client that sends and switches to its daemon leaves a safe state |
| FuseSafety.TickSafe | fuse1/fusec.c:689-701 | one more turn of SwitchProcess's loop keeps the invariant or stops at the assert on the timeout |
| FuseSafety.DaemonReadSafe | fuse1/fusec.c:761-769 | a daemon that begins to read keeps the invariant |
| FuseSafety.ClientCallSafe | fuse1/fusec.c:873-942 | beginning a call keeps the invariant or stops at an assert |
| FuseSafety.WakeClientShape | borges/ioman.09160e58ca:2912-2917 | what the end of a client's call does to both descriptors |
| FuseSafety.WakeClientSafe | fuse1/fusec.c:1054-1061 | the end of a call keeps the invariant |
| FuseSafety.WakeDaemonSafe | fuse1/fusec.c:770-786 | a woken daemon always finds its client: none of its asserts fails |
| FuseSafety.DaemonWriteSafe | fuse1/fusec.c:790-817 | a reply keeps the invariant or stops at an assert |
| FuseSafety.OpenDaemonSafe | fuse1/fusec.c:733-757 | a new daemon's name is not in use on its device |
| FuseSafety.LastClose | fuse1/fusec.c:1036-1062 | a client closed for the last time has no link left but its own, so it always asks its daemon |
| FuseSafety.DupPathSafe | borges/ioman.09160e58ca:2858-2861 | duplicating a path keeps the accounts |
| FuseSafety.ClosePathSafe | borges/ioman.09160e58ca:3323-3332 | closing keeps the invariant, in every case |
| FuseSafety.StepSafe | fuse1/fusec.c:657-1062 | no step leaves the safe states, unless an assert stops the machine |
| FuseSafety.EveryRun | fuse1/fusec.c:657-1062 | after any schedule: peers point back, link counts are accounted for exactly when no open was refused, names are unique |
| FuseSafety.RefusalKeepsALink | borges/ioman.09160e58ca:2893-2902 | a run after which a link count is not accounted for |
| FuseRuns.QuietMeansAnswered | fuse1/fusec.c:807-814 | with no client in a call a daemon has answered everything and is linked to nobody |
| FuseRuns.SendCalm | fuse1/fusec.c:883-942 | a request sent to a daemon that has answered everything stands in its buffer, and the daemon is woken or will be |
| FuseRuns.TickCalm | fuse1/fusec.c:689-701 | waiting for the daemon to pause keeps request and buffer |
| FuseRuns.WakeDaemonCalm | fuse1/fusec.c:770-786 | what a woken daemon gets is its client's request, byte for byte |
| FuseRuns.DaemonWriteCalm | fuse1/fusec.c:790-817 | a reply goes to the client that asked, which is woken |
| FuseRuns.WakeClientCalm | fuse1/fusec.c:859-871 | the client that goes on is the one that asked, with the reply before it |
| FuseRuns.ClosePathCalm | fuse1/fusec.c:1036-1062 | closing keeps everyone in phase, in every case |
| FuseRuns.StepCalm | fuse1/fusec.c:689-976 | a step by the rules never meets a failed assert, and keeps daemon, client and buffer in phase |
| FuseRuns.EveryKeptRun | fuse1/fusec.c:689-976 | in every run by the rules: no assert fails, each daemon sees request, delivery of the same bytes, reply, and the same client going on with that reply |

## Left out

- Storage inside `mp`: `xalloc`, `xfree` and results that overwrite operands. A number is a length and a
  snapshot of its digits; operands are read before results are stored. Lack of memory is not modelled.
- Multiplication.Multiply: two operands of length 0 are excluded, because `m_mult` then reads before its array.
- ShortDivision.DivideMagnitude: a dividend of length 0, for which `s_div` reads before its array, is given the
  quotient and remainder 0.
- Powers.ModPower: a power that vanishes modulo c would be squared as an operand of length 0; the condition
  excludes that, and coprime operands meet it.
- Knapsack.Secret.MakeMultiplier: from a leading zero the loops of the library need not end; they get a number of turns, and nothing is
  promised when these are not enough or the result is not a proper number of at most five digits. The steps on shorts are functions
  on values, not in place.
- Knapsack.SendAndReceive: message numbers and inverses of fewer than six digits between them that end in two NULs may or may not be
  read past; `Knapsack.Decipher` has the exact condition.
- TopDigit.TopDigitDecides: the condition is on the top digit; one random sequence with a zero digit may by chance give a message back.
- Mints.FromInt: -32768 is excluded; `itom` would store it as a digit that is not one.
- ShortDivision.Divide: the divisor -32768 is excluded here and treated in `LeadingZero.ByMinimum`.
- LongDivision.ScaleFactor: a top digit of zero is excluded here; `Knapsack.ScaleOverflows` says what becomes of the factor.
- LongDivision.DivideMagnitudes: divisors with a leading zero are excluded here and treated in `LeadingZero.RemainderIsNoNumber`.
- LongDivision.Div: likewise.
- ShortLaws.DivideLaw: likewise. Greatest common divisor and inverse on shorts are computed for the guess of `LeadingZero.GuessInverted` only.
- ShortLaws.MultiplyLaw: two operands of length 0, for which `m_mult` reads before its array, are excluded.
- ShortLaws.DivideShortLaw: a dividend of length 0, likewise.
- Euclid.GreatestCommonDivisor: operands with a leading zero are excluded here and treated in `LeadingZero.GuessAccepted`.
- Euclid.Invert: operands with a leading zero are excluded here and treated in `LeadingZero.GuessInverted`.
- Files, terminals, `crypt` and `makekey` of the mail programs: the thirteen key bytes are any seven-bit characters, `rand` is any
  function of the seed and the number of draws, and `nin` after `nout` is the identity.
- The copy of the library for another word size in `knapsack/linux-2022`.
- WordLaws.DivideLaw: -2147483648 / -1, which 32 bits do not hold, is excluded; the original leaves it to the machine.
- Definitions.DefinitionMeans: recursive definitions, and `exit`, literals and parsing words inside a definition, are excluded.
- miniforth's addresses count cells, code fields hold the names of C functions, and a variable's cell is kept with the data: fetch and
  store are defined on variables only. What C leaves undefined (an empty stack, division by zero) is the outcome `Undefined`.
- Glob.StringMatch: patterns with an unclosed class, or a bracket as the upper end of a range, are excluded, because the original may go
  past their end. Characters are ordered by code.
- Glob.MatchClass: a class that is not closed, likewise.
- Glob.MatchPiece: such a class in the piece or after it, likewise.
- Glob.MatchStar: such a class in the rest of the pattern, likewise.
- Regex.MatchPattern: patterns with a quantifier or an anchor out of place are excluded.
- RegexCompile.Compiler.Compile: unclosed classes and trailing backslashes are excluded, because the original reads past the pattern or
  leaves an entry as it was.
- RegexCompile.Compiler.Match: patterns that Compile or MatchPattern exclude.
- ListQuoting.SplitList: a list text that ends in a backslash inside braces is excluded, because the original reads past its end.
- Malloc.Heap.Malloc: after a panic, and on a heap whose top has gone round, no further calls are described beyond `Malloc.NextDamage`.
- Malloc.Heap.Realloc: when its malloc goes round, the copy and the free that follow are not modelled.
- Malloc.Heap.Free: pointers that no call of malloc has returned are excluded.
- NCL's commands, variables and evaluation beyond the functions above, and the OS-9 calls.
- FuseSafety.EveryRun: `link_count` is unbounded; a byte would wrap at 256 holders of one path. Its steps exclude a client's writes of more
  than 244 bytes and replies of more than 256, with which the original overruns the buffer.
- FuseRuns.EveryKeptRun: requests are no longer than the kernel buffer allows; replies of any shape are delivered as written.
- fuse signals other than the wake-ups the file manager sends, the queue of processes that IOMan keeps for a busy path, F$PrsNam
  (names come parsed, without NUL), and the MMU: a move copies bytes, and user addresses are never zero.
- The emulators, the display and network drivers, and the tools: devices and listings rather than algorithms.
