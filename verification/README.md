# Verified model of the Wio Link node and server

A Dafny model of the parts of this repository where the arithmetic and the state are hardest:
multi-precision numbers, AES and its modes, the encrypted uplink from node to server, the two
schedulers of the node, its text codecs, and the concurrent state of the server. `dafny verify
dfyconfig.toml` checks everything.

- `Limbs`, `Mpi*`: PolarSSL's bignum. A number is an object whose limb list is rewritten in
  place; `Val` gives the natural number a limb list stands for, in base 2^8, 2^16, 2^32 or 2^64
  alike. Every routine is stated on values, its loops on limbs.
- `Sequences`: facts about sequences of any type.
- `AesField`, `AesProduct`, `AesRounds`, `AesCipher`: FIPS-197 over an arbitrary field and
  state. `AesBytes`, `AesTables`, `Aes`: bytes, the generated tables, the key schedules and the
  table-driven rounds that refine it. `AesStandard`: the box, the schedule and the rounds byte
  by byte, as FIPS-197 has them. `AesCbc`, `AesModes` (CFB128), `AesCtr`: the modes.
- `CircularBuffer`, `Uplink`, `UplinkDevices`: the path of a byte from the transmit ring through
  padding, encryption, 16-byte reads and unpadding into CRLF lines. `Uplink` has the protocol as
  steps and its theorems over every run; `UplinkDevices` has the code of both ends, each method
  stated by its step. `UplinkWrites` has what each write does in any reachable state, and
  `UplinkLines` what the lines are, against texts written out line by line.
- `TimerQueue`, `TimerList`: the delta-encoded timer list, as a queue and as linked nodes.
  `TimerRepeats`: what the timers are set to, and that repeating ones come round for ever.
- `PwmSort`, `Pwm`: the PWM planner and its interrupt.
- `Base64`, `Strtol`: the text codecs. `Base64Bits`, `StrtolTexts`: the same against the
  alphabet and bits of RFC 1521 and the subject sequence of the C standard.
- `OtaStatus`, `ConnPool`: the status rendezvous and the connection pool of the server.
  `ConnPoolRuns`: what each event does in any reachable state.

Calls into code outside these files are parameters: the JSON decoder is a predicate on lines,
`strstr` for a CRLF and the connection flags are arguments of `NetworkPuts`, and the server's
cipher is the same block function as the node's. Shifts and masks on C integers are written as
divisions and remainders in `Base64`, `Strtol` and the bignum files, and as bit-vectors in the
AES files; pin masks are sets.

## What the code does that its callers may not expect

- `mpi_add_abs` with all three arguments one object loses the carry out of a limb
  (`MpiAddSub.SelfAddExact`).
- `mpi_div_mpi` with Q one of the operands drops that operand's sign before reading it
  (`MpiDivision.AliasedQuotientExact`, `MpiDivision.AliasedRemainderExact`).
- `mpi_mod_int` is wrong for some numbers as soon as the divisor neither fits half a limb nor
  divides the base (`MpiModInt.ModIntSignedExact`).
- `mpi_gcd(A, 0)` is 0, and `mpi_inv_mod` with N = 1 does not terminate.
- `mpi_exp_mod` with a negative base subtracts the power of the magnitude from N whatever the
  exponent's parity (`MpiExpMod.NegativeBaseExact`, `MpiNegativeBase.NegativeBaseBounded`).
- `mpi_write_string` can need one byte more than its size test asks for
  (`MpiString.SizeExact`).
- `base64_decode` of a text with nothing to decode leaves `*dlen` as it was.
- A timer pushed back on a tie underflows the next entry if that has less than 80 ticks
  (`TimerQueue.InsertKeepsDeadlines`).
- An active PWM pin whose value is a multiple of 1024 is held high for the whole cycle.
- A poll that has timed out stays queued, and a status posted while it is the oldest one
  waiting is lost (`OtaStatus.LostAtPostExactly`).
- NULs at the end of a 16-byte block of a flushed chunk do not reach the server's text
  (`Uplink.UplinkText`).

## Model

| member | source | states |
|---|---|---|
| MpiCore.Grow | node_main/polarssl/bignum.c:103-130 | Lengthens the limb array with zeros, keeping the number, and never shortens it. |
| MpiCore.Copy | node_main/polarssl/bignum.c:173-202 | X takes the sign and value of Y, with its remaining limbs cleared; X and Y may be one object. |
| MpiCore.Lset | node_main/polarssl/bignum.c:283-296 | X becomes the small integer z, minus zero excluded. |
| MpiCore.CmpAbs | node_main/polarssl/bignum.c:775-800 | The order of the magnitudes, whatever the numbers of limbs. |
| MpiCore.CmpMpi | node_main/polarssl/bignum.c:805-833 | The order of the signed values. |
| MpiCore.CmpInt | node_main/polarssl/bignum.c:838-849 | The order against a small integer. |
| MpiAddSub.AddAbs | node_main/polarssl/bignum.c:854-901 | |X| = |A| + |B| under every aliasing, with the limbs rewritten in place; with X, A and B one object the carries out of a limb are lost and exactly `Doubled` is computed. |
| MpiAddSub.SelfAddExact | node_main/polarssl/bignum.c:854-901 | `mpi_add_abs(X, X, X)` doubles X if and only if no limb has its top bit set. |
| MpiAddSub.SelfAddWitness | node_main/polarssl/bignum.c:854-901 | A single limb of BASE - 1 comes out BASE short of its double. |
| MpiAddSub.SubHlp | node_main/polarssl/bignum.c:906-922 | The borrow loop subtracts the whole source, running the borrow past it into the higher limbs that the caller guarantees. |
| MpiAddSub.SubAbs | node_main/polarssl/bignum.c:927-965 | |X| = |A| - |B|, or the negative-value error with X untouched exactly when |A| < |B|. |
| MpiAddSub.AddMpi | node_main/polarssl/bignum.c:970-996 | X = A + B for all signs and aliasings but the triple one. |
| MpiAddSub.SubMpi | node_main/polarssl/bignum.c:1001-1027 | X = A - B for all signs and aliasings. |
| MpiAddSub.AddInt | node_main/polarssl/bignum.c:1032-1043 | X = A + z. |
| MpiAddSub.SubInt | node_main/polarssl/bignum.c:1048-1059 | X = A - z. |
| MpiMul.MulAddC | node_main/polarssl/bn_mul.h:826-840 | One multiply-accumulate step: low limb plus BASE times carry equals d + s * b + carry in, and the carry fits a limb. |
| MpiMul.MulHlp | node_main/polarssl/bignum.c:1072-1131 | Adds s * b at an offset of D, carry loop included, given room above. |
| MpiMul.MulMpi | node_main/polarssl/bignum.c:1136-1168 | X = A * B with sign, under every aliasing. |
| MpiMul.MulInt | node_main/polarssl/bignum.c:1173-1184 | X = A * b for a one-limb b. |
| MpiShift.Msb | node_main/polarssl/bignum.c:355-368 | The bit length of the magnitude. |
| MpiShift.Lsb | node_main/polarssl/bignum.c:340-350 | The number of factors of two, zero for zero. |
| MpiShift.ShiftL | node_main/polarssl/bignum.c:682-727 | The magnitude times 2^count, growing as needed, limb moves and bit carries in place. |
| MpiShift.ShiftR | node_main/polarssl/bignum.c:732-770 | The magnitude divided by 2^count, rounded down, for every count. |
| MpiDivision.DigitBound | node_main/polarssl/bignum.c:1295-1311 | A digit refined against the two top limbs of the divisor and three of the remainder is the true digit or one more. |
| MpiDivision.DigitError | node_main/polarssl/bignum.c:1295-1324 | After the two-limb refinement the remainder minus digit times divisor lies between minus the divisor and the divisor, although the top limb is only known to be BASE/4 or more: one add-back suffices. |
| MpiDivision.RefineDigit | node_main/polarssl/bignum.c:1295-1311 | The do-while loop ends with the digit refined as above. |
| MpiDivision.DivStep | node_main/polarssl/bignum.c:1237-1325 | One turn keeps dividend = quotient so far * divisor + remainder, with the remainder below the shifted divisor. |
| MpiDivision.TopDigit | node_main/polarssl/bignum.c:1226-1235 | The subtraction loop for the leading digit. |
| MpiDivision.DivMpi | node_main/polarssl/bignum.c:1189-1348 | Truncating division for any of the four objects being one: A = Q * B + R with |R| < |B| and R zero or of A's sign; division by zero changes nothing; a sign lost because Q is A or B, and a quotient overwritten because Q is R, are accounted for exactly. |
| MpiDivision.AliasedQuotientExact | node_main/polarssl/bignum.c:1326-1340 | With Q one of the operands the quotient is right if and only if |A| < |B| or the signs lost cancel out. |
| MpiDivision.AliasedRemainderExact | node_main/polarssl/bignum.c:1205-1209 | With Q one of the operands the remainder is right if and only if Q is not A, nothing remains, or the sign stored for the quotient is A's. |
| MpiDivision.AliasedWitness | node_main/polarssl/bignum.c:1326-1340 | -3 divided by 2 into itself gives 1 with remainder 1 instead of -1 with remainder -1. |
| MpiDivision.TruncIdentity | node_main/polarssl/bignum.c:1189-1348 | Truncated quotient and remainder are the ones with a = q * b + r, |r| < |b| and r of a's sign. |
| MpiDivision.DivInt | node_main/polarssl/bignum.c:1353-1364 | Division by a small integer. |
| MpiDivision.ModMpi | node_main/polarssl/bignum.c:1369-1387 | R is the residue of A in [0, B), negative and zero B refused with R untouched. |
| MpiModInt.ModInt | node_main/polarssl/bignum.c:1392-1444 | The half-limb loop with its lost high bits and the sign fix, and A mod b whenever the divisor is safe. |
| MpiModInt.ModLimbsCorrect | node_main/polarssl/bignum.c:1416-1431 | The loop computes the residue for every number when the divisor is safe. |
| MpiModInt.ModIntExact | node_main/polarssl/bignum.c:1416-1431 | The loop is right for every magnitude if and only if the divisor fits in half a limb or divides the base. |
| MpiModInt.ModIntSignedExact | node_main/polarssl/bignum.c:1392-1444 | The whole function is right for every signed number if and only if the same holds. |
| MpiMontgomery.SeedInverse | node_main/polarssl/bignum.c:1449-1461 | The seed from the low four bits is an inverse modulo 16 for every odd limb. |
| MpiMontgomery.NewtonDoubles | node_main/polarssl/bignum.c:1449-1461 | Each pass doubles the number of correct bits of the inverse. |
| MpiMontgomery.MontgInit | node_main/polarssl/bignum.c:1449-1461 | N0 * mm = -1 modulo the base for every odd low limb and every limb width. |
| MpiMontgomery.AccBound | node_main/polarssl/bignum.c:1466-1499 | With A below the weight of N's limbs and B at most N, the accumulator stays below 2N after every limb. |
| MpiMontgomery.BalanceRoom | node_main/polarssl/bignum.c:1492-1498 | The balancing branch's borrow stays inside T, because T still holds what it is subtracted from. |
| MpiMontgomery.MontMul | node_main/polarssl/bignum.c:1466-1499 | A < N and A * R = A0 * B modulo N, the lengths of A and T unchanged. |
| MpiMontgomery.MontRed | node_main/polarssl/bignum.c:1504-1513 | A * R = A0 modulo N: multiplication by one. |
| MpiExpMod.ScanStep | node_main/polarssl/bignum.c:1646-1684 | One exponent bit through the three-state window scan keeps result and pending window equal to the power of the prefix read. |
| MpiExpMod.ScanLoop | node_main/polarssl/bignum.c:1621-1684 | All bits of all limbs, top first. |
| MpiExpMod.Leftover | node_main/polarssl/bignum.c:1686-1697 | The bits of an unfinished window. |
| MpiExpMod.BuildTable | node_main/polarssl/bignum.c:1597-1619 | Entries 2^(w-1) .. 2^w - 1 of the window table hold the matching powers. |
| MpiExpMod.MontAddsExponents | node_main/polarssl/bignum.c:1466-1499 | Montgomery multiplication of representatives of a^m and a^n represents a^(m+n). |
| MpiExpMod.ExpMod | node_main/polarssl/bignum.c:1518-1721 | X = A^E mod N for every odd N > 0, A >= 0 and E >= 0, with the cached R^2 mod N produced or reused; a negative base gives N minus the power of its magnitude; bad input leaves X alone. |
| MpiExpMod.NegativeBaseExact | node_main/polarssl/bignum.c:1704-1708 | What a negative base gives is the residue if and only if E is odd and N does not divide the power. |
| MpiNegativeBase.NegativeBaseBounded | node_main/polarssl/bignum.c:1704-1708 | The same as a test before the call: E is odd and N does not divide the base to the smaller of E and N's bit length. |
| MpiNegativeBase.NegativeBaseCoprime | node_main/polarssl/bignum.c:1704-1708 | For a base coprime to N > 1 it is the residue if and only if E is odd. |
| MpiNegativeBase.NegativeBaseOne | node_main/polarssl/bignum.c:1704-1708 | For N = 1 it never is: 1 comes out and the residue is 0. |
| MpiNegativeBase.NegativeBaseWitness | node_main/polarssl/bignum.c:1704-1708 | (-2)^2 mod 7 comes out as 3 instead of 4. |
| MpiGcd.GcdStep | node_main/polarssl/bignum.c:1749-1764 | One pass of subtract and halve keeps the common divisors. |
| MpiGcd.Gcd | node_main/polarssl/bignum.c:1726-1773 | The greatest common divisor of the magnitudes if and only if B is not zero or A is zero; otherwise the result is 0. |
| MpiGcd.GcdScale | node_main/polarssl/bignum.c:1738-1766 | The power of two taken out before and put back after scales the divisor. |
| MpiInvMod.HalveRow | node_main/polarssl/bignum.c:1834-1861 | Halving a row of the extended algorithm is exact, for even moduli too. |
| MpiInvMod.InvLoop | node_main/polarssl/bignum.c:1832-1875 | The loop ends with TV = V1 * TA + V2 * TB equal to 1, both rows kept throughout. |
| MpiInvMod.InverseFromRow | node_main/polarssl/bignum.c:1832-1883 | A row for 1 yields the inverse. |
| MpiInvMod.InvMod | node_main/polarssl/bignum.c:1802-1892 | For N > 1 coprime to A: 0 < X < N and A * X = 1 modulo N, for even N too; not acceptable otherwise; bad input for N <= 0. |
| MpiInvMod.NoExitForOne | node_main/polarssl/bignum.c:1832-1847 | For N = 1 and every A the gcd test passes, the working value starts at 0, and any number of halvings leaves it an even 0, so the halving loop has no exit. |
| MpiString.WriteHlp | node_main/polarssl/bignum.c:467-489 | Recursive division writes the digits most significant first. |
| MpiString.WriteHex | node_main/polarssl/bignum.c:521-539 | The byte loop writes hexadecimal pairs without leading zero bytes. |
| MpiString.WriteString | node_main/polarssl/bignum.c:494-559 | The text with sign, digits and terminator, or the size needed, or bad input; nothing is written unless it succeeds. |
| MpiString.ReadString | node_main/polarssl/bignum.c:398-455 | The number a well-formed text denotes, and the character error for any other text. |
| MpiString.TextRoundTrip | node_main/polarssl/bignum.c:398-559 | What the writer writes is read back as the same number, for every sign, value and radix from 2 to 16. |
| MpiString.SizeExact | node_main/polarssl/bignum.c:504-513 | The size test allows for every digit, sign and terminator except, one byte short, for negative numbers in radix 16 that are zero or of a bit length 1, 2 or 3 modulo 8. |
| MpiString.DigitValExact | node_main/polarssl/bignum.c:381-393 | Exactly the characters 0 to 9, A to F and a to f have values, each its place in that list. |
| MpiString.NoLeadingZero | node_main/polarssl/bignum.c:467-489 | Outside radix 16 only the text of zero begins with a zero. |
| MpiString.KnownTexts | node_main/polarssl/bignum.c:494-559 | -10 in radix 10 is "-10", 171 in radix 16 is "AB" and zero in radix 16 is "00". |
| AesField.UnmixUndoesMix | node_main/polarssl/aes.c:660-704 | InvMixColumns undoes MixColumns, from the field laws alone. |
| AesField.UnmixLinear | node_main/polarssl/aes.c:637-646 | InvMixColumns goes through AddRoundKey, on which the equivalent inverse rests. |
| AesBytes.EveryPower | node_main/polarssl/aes.c:399-404 | 3 generates the nonzero bytes, so the logarithm table has no gaps. |
| AesBytes.InverseUnique | node_main/polarssl/aes.c:423 | A byte has one multiplicative inverse. |
| AesBytes.BoxesUndo | node_main/polarssl/aes.c:418-433 | The substitution box (inverse, then affine map) and the reverse box undo each other on every byte. |
| AesBytes.AffineBits | node_main/polarssl/aes.c:425-429 | The source's rotations compute the affine map of FIPS-197 equation 5.1, bit by bit. |
| AesBytes.PowerTimes | node_main/polarssl/aes.c:386 | Products of powers of 3 add exponents in the field of FIPS-197 section 4.2. |
| AesProduct.TimesCoefficients | node_main/polarssl/aes.c:386 | Products by 09, 0B, 0D and 0E are the sums of doublings in the inverse matrix. |
| AesTables.GenPowLog | node_main/polarssl/aes.c:396-404 | pow[i] is 3^i, and log[x] an exponent of x for every nonzero x. |
| AesTables.GenRcon | node_main/polarssl/aes.c:406-413 | The round constants are the powers of x. |
| AesTables.GenBoxes | node_main/polarssl/aes.c:415-433 | FSb and RSb are the boxes of FIPS-197 sections 5.1.1 and 5.3.2, every entry of RSb included. |
| AesTables.Mul | node_main/polarssl/aes.c:386 | The logarithm product, zero operands included, is the field product. |
| AesTables.GenTables | node_main/polarssl/aes.c:390-464 | The generated tables hold what FIPS-197 prescribes: boxes, mixed columns and their rotations, round constants. |
| Aes.StandardFaithful | node_main/polarssl/aes.c:390-464 | Words read as columns, the generated tables satisfy every law the rounds use. |
| Aes.ForwardRound | node_main/polarssl/aes.c:660-681 | AES_FROUND is SubBytes, ShiftRows, MixColumns, AddRoundKey (FIPS-197 section 5.1). |
| Aes.ReverseRound | node_main/polarssl/aes.c:683-704 | AES_RROUND is a round of the equivalent inverse (section 5.3.5). |
| Aes.EncryptWords | node_main/polarssl/aes.c:734-808 | The whole loop structure in encrypt mode is the cipher over the held round keys. |
| Aes.DecryptWords | node_main/polarssl/aes.c:734-773 | In decrypt mode it is the equivalent inverse cipher. |
| Aes.Expand256 | node_main/polarssl/aes.c:563-588 | The unrolled 256-bit expansion is the key expansion of section 5.2. |
| Aes.Expand192 | node_main/polarssl/aes.c:545-562 | The 192-bit one. |
| Aes.Expand128 | node_main/polarssl/aes.c:529-543 | The 128-bit one. |
| Aes.AesContext.SetKeyEnc | node_main/polarssl/aes.c:484-591 | Any key size but 128, 192 and 256 is refused with nothing changed; otherwise the context holds exactly the expanded key. |
| Aes.AesContext.SetKeyDec | node_main/polarssl/aes.c:596-658 | The context holds the encryption keys backwards, the inner ones through InvMixColumns. |
| Aes.AesContext.CryptEcb | node_main/polarssl/aes.c:709-816 | One block through the cipher or the equivalent inverse, with input and output overlapping in any way and no other byte touched. |
| AesStandard.Figure7Row0 | node_main/polarssl/aes.c:415-433 | Row 0 of the substitution box as figure 7 of FIPS-197 prints it, byte for byte. |
| AesStandard.Figure7Row1 | node_main/polarssl/aes.c:415-433 | Row 1 of the substitution box as figure 7 of FIPS-197 prints it, byte for byte. |
| AesStandard.Figure7Row2 | node_main/polarssl/aes.c:415-433 | Row 2 of the substitution box as figure 7 of FIPS-197 prints it, byte for byte. |
| AesStandard.Figure7Row3 | node_main/polarssl/aes.c:415-433 | Row 3 of the substitution box as figure 7 of FIPS-197 prints it, byte for byte. |
| AesStandard.Figure7Row4 | node_main/polarssl/aes.c:415-433 | Row 4 of the substitution box as figure 7 of FIPS-197 prints it, byte for byte. |
| AesStandard.Figure7Row5 | node_main/polarssl/aes.c:415-433 | Row 5 of the substitution box as figure 7 of FIPS-197 prints it, byte for byte. |
| AesStandard.Figure7Row6 | node_main/polarssl/aes.c:415-433 | Row 6 of the substitution box as figure 7 of FIPS-197 prints it, byte for byte. |
| AesStandard.Figure7Row7 | node_main/polarssl/aes.c:415-433 | Row 7 of the substitution box as figure 7 of FIPS-197 prints it, byte for byte. |
| AesStandard.Figure7Row8 | node_main/polarssl/aes.c:415-433 | Row 8 of the substitution box as figure 7 of FIPS-197 prints it, byte for byte. |
| AesStandard.Figure7Row9 | node_main/polarssl/aes.c:415-433 | Row 9 of the substitution box as figure 7 of FIPS-197 prints it, byte for byte. |
| AesStandard.Figure7RowA | node_main/polarssl/aes.c:415-433 | Row A of the substitution box as figure 7 of FIPS-197 prints it, byte for byte. |
| AesStandard.Figure7RowB | node_main/polarssl/aes.c:415-433 | Row B of the substitution box as figure 7 of FIPS-197 prints it, byte for byte. |
| AesStandard.Figure7RowC | node_main/polarssl/aes.c:415-433 | Row C of the substitution box as figure 7 of FIPS-197 prints it, byte for byte. |
| AesStandard.Figure7RowD | node_main/polarssl/aes.c:415-433 | Row D of the substitution box as figure 7 of FIPS-197 prints it, byte for byte. |
| AesStandard.Figure7RowE | node_main/polarssl/aes.c:415-433 | Row E of the substitution box as figure 7 of FIPS-197 prints it, byte for byte. |
| AesStandard.Figure7RowF | node_main/polarssl/aes.c:415-433 | Row F of the substitution box as figure 7 of FIPS-197 prints it, byte for byte. |
| AesStandard.ScheduleKey | node_main/polarssl/aes.c:522-525 | The first words of the round keys are the bytes of the key, for all three key sizes. |
| AesStandard.ScheduleRowStart | node_main/polarssl/aes.c:529-588 | At every nk-th word, byte r is byte r of the word nk before, plus the box of byte r + 1 (cyclically) of the previous word, plus the literal round constant when r is 0. |
| AesStandard.ScheduleRowMiddle | node_main/polarssl/aes.c:563-588 | For 256-bit keys the word half way through a row is the one eight before plus the box of the previous word, byte by byte. |
| AesStandard.SchedulePlain | node_main/polarssl/aes.c:529-588 | Every other word is the one nk before plus the previous one, byte by byte. |
| AesStandard.KnownWord | node_main/polarssl/aes.c:563-588 | For the 256-bit key of appendix A.3 of FIPS-197 word 8 is 9ba35411. |
| AesStandard.FirstAdded | node_main/polarssl/aes.c:734-739 | The cipher starts by adding the first round key to the block. |
| AesStandard.RoundBytes | node_main/polarssl/aes.c:660-681 | Byte r of column c after a full round is 2, 3, 1 and 1 times the boxes of the bytes of rows r, r + 1, r + 2 and r + 3, each taken as many columns on as its row, plus the byte of the round key. |
| AesStandard.LastBytes | node_main/polarssl/aes.c:783-806 | In the last round it is the box of the byte r columns on in row r, plus the byte of the last round key. |
| AesRounds.EqInvIsInv | node_main/polarssl/aes.c:637-704 | The equivalent inverse over the transformed schedule is the straightforward inverse cipher, on every block. |
| AesRounds.InvUndoesCipher | node_main/polarssl/aes.c:709-816 | The inverse cipher undoes the cipher for any number of rounds and any keys. |
| Aes.SameKeyRoundTrip | node_main/polarssl/aes.c:484-816 | For every key of the three sizes and every block, decrypting with the aes_setkey_dec schedule undoes encrypting with the aes_setkey_enc schedule. |
| AesCbc.EcbThereAndBack | node_main/polarssl/aes.c:484-816 | Two contexts set up with one key, one for each direction: a block encrypted in place and then decrypted in place is back in its buffer. |
| AesCbc.CbcThereAndBack | node_main/polarssl/aes.c:822-881 | The same of a whole message in CBC mode, the two initialisation vectors ending equal. |
| AesCbc.CryptCbc | node_main/polarssl/aes.c:822-881 | Whole blocks chained in either mode, in place or forward overlapping, the initialisation vector carried on; other lengths refused. |
| AesCbc.CbcRoundTrip | node_main/polarssl/aes.c:822-881 | CBC decryption undoes encryption. |
| AesCbc.CbcSplits | node_main/polarssl/aes.c:822-881 | In either mode two calls are one call on the joined message, with the chaining block carried over. |
| AesCbc.CbcEncryptAt | node_main/polarssl/aes.c:864-878 | Block k of the ciphertext is the block cipher of plaintext block k plus the ciphertext block before it, or the initialisation vector (section 6.2 of NIST SP 800-38A). |
| AesCbc.CbcDecryptAt | node_main/polarssl/aes.c:847-863 | Block k of the plaintext is the inverse cipher of ciphertext block k plus the ciphertext block before it, or the initialisation vector. |
| AesCbc.CbcIvIs | node_main/polarssl/aes.c:847-878 | In either mode a call leaves the last ciphertext block as the chaining block. |
| AesModes.CryptCfb128 | node_main/polarssl/aes.c:888-929 | Output, feedback block and offset are those of the byte stream, in place or forward overlapping. |
| AesModes.CfbBlock | node_main/polarssl/aes.c:888-929 | A whole block is one step of section 6.3 of NIST SP 800-38A. |
| AesModes.CfbSplits | node_main/polarssl/aes.c:888-929 | Two calls are one call on the joined message, with the same final state. |
| AesModes.CfbAnySplit | node_main/polarssl/aes.c:888-929 | So is any split of a message into calls. |
| AesModes.CfbRoundTrip | node_main/polarssl/aes.c:888-929 | CFB128 decryption undoes encryption from any state and ends in the same state. |
| AesCtr.BumpCounter | node_main/polarssl/aes.c:984-986 | The increment loop is the big-endian increment with wrap-around. |
| AesCtr.IncrementAdds | node_main/polarssl/aes.c:984-986 | It adds one modulo 256 to the length. |
| AesCtr.CryptCtr | node_main/polarssl/aes.c:968-998 | Output, counter, stream block and offset are those of the byte stream. |
| AesCtr.CtrAnySplit | node_main/polarssl/aes.c:968-998 | Any split into calls gives the output and final state of one call. |
| AesCtr.CtrUndoesItself | node_main/polarssl/aes.c:968-998 | CTR applied twice from the same state is the identity. |
| AesCtr.CtrCounter | node_main/polarssl/aes.c:968-998 | The counter advances by the number of blocks begun, modulo 2^128. |
| AesCtr.CtrKeyStream | node_main/polarssl/aes.c:968-997 | From any offset, byte k of the output is the input byte plus the byte at its offset of the block in use: what is left of the current one, or the encrypted counter as many blocks on as were begun before it (section 6.5 of NIST SP 800-38A). |
| CircularBuffers.CircularBuffer.Write | node_main/circular_buffer.cpp:40-66 | Appends as many bytes as fit, across the end of the array if need be, and says how many. |
| CircularBuffers.CircularBuffer.Read | node_main/circular_buffer.cpp:68-94 | Takes the oldest bytes, as many as asked for and held. |
| CircularBuffers.WindowGrows | node_main/circular_buffer.cpp:40-66 | Storing round the end of the array appends to the logical contents. |
| UplinkDevices.TxPath.WriteFinishCb | node_main/network.cpp:723-749 | Sends all that is waiting, zero-padded to 16 and encrypted, or clears the sending flag. |
| UplinkDevices.TxPath.NetworkPuts | node_main/network.cpp:768-797 | Refusals, buffering and the flush condition of network_puts, state and sent bytes exactly. |
| UplinkDevices.LineReader.OnRead | server.py:225-258 | One 16-byte read: decrypt, unpad, append, hand on complete lines until one cannot be decoded. |
| Uplink.PadRoundTrip | server.py:59-60 | Padding then unpadding block by block gives a chunk back if and only if none of its blocks ends in a NUL. |
| Uplink.LinesIncremental | server.py:233-249 | Cutting CRLF lines as text comes in is cutting the whole text at once. |
| Uplink.DrainSplits | server.py:235-257 | A pass of the loop loses and reorders nothing, and leaves complete lines behind only after an undecodable one. |
| Uplink.RunKeeps | node_main/network.cpp:723-797 | Both ends' invariants hold in every reachable state of arbitrary writes, flushes and reads. |
| Uplink.RecoveredExactly | server.py:59-60 | The chunks flushed come through together if and only if no block of any of them ends in a NUL. |
| Uplink.NulLost | server.py:59-60 | A flushed chunk of the bytes 1 and 0 reaches the text as the byte 1. |
| Uplink.UplinkText | server.py:225-258 | For arbitrary writes and every schedule: the server's text is a prefix of the flushed chunks, each without the NULs its blocks end in; with nothing waiting or in flight it is what entered if and only if no block of a flushed chunk ends in a NUL; lines handled plus lines kept are the lines of that text. |
| Uplink.UplinkSafe | server.py:225-258 | For NUL-free writes the text is a prefix of what entered the ring, and all of it once nothing is waiting or in flight. |
| Uplink.UplinkDelivers | node_main/network.cpp:723-749 | From every reachable state one completed send and enough reads deliver every flushed chunk, and so every byte that entered exactly when no block of a chunk ends in a NUL. |
| Uplink.PadExact | node_main/network.cpp:734-741 | Padding adds zeros only, up to the next multiple of 16. |
| Uplink.RStripExact | server.py:60 | Unpadding takes off exactly the zeros a block ends in. |
| Uplink.DrainStops | server.py:246-258 | A line that cannot be decoded is the last one handed on in its pass. |
| UplinkLines.FirstLine | server.py:246-249 | The first line of a text is what is left of it before the first CRLF when every CR and LF at either end is gone, and the lines after it are those of what follows the CRLF. |
| UplinkLines.EndsOf | server.py:249 | Every text can be taken apart so. |
| UplinkLines.NoLine | server.py:246 | A text without CRLF has no line and is kept whole. |
| UplinkLines.LinesOfWritten | server.py:246-249 | Lines with no CR or LF at their ends and no CRLF inside come out as they were written, with the rest kept. |
| UplinkLines.KnownLine | server.py:246-249 | The text "x", CR, LF is the line "x". |
| UplinkLines.HandledInOrder | server.py:233-258 | Over every run: if what was written is NUL-free lines, those handed on are the first of these, unchanged and in order. |
| UplinkLines.HandledAll | server.py:233-258 | Once nothing waits or is in flight every one has been handed on, unless the last one handed on could not be decoded. |
| UplinkWrites.WriteRefused | node_main/network.cpp:773-782 | In every reachable state a write changes nothing when the connection is not up or the ring has no room for all of it. |
| UplinkWrites.WriteWaits | node_main/network.cpp:773-787 | A write that is taken waits behind a send under way, or when it has no CRLF and leaves no more than the threshold waiting. |
| UplinkWrites.WriteSends | node_main/network.cpp:787-794 | Any other is sent at once as one chunk with all that waited before it. |
| UplinkWrites.WriteAnswer | node_main/network.cpp:773-796 | Which code answers which write. |
| UplinkWrites.AlwaysBounded | node_main/network.cpp:768-797 | In every reachable state no more waits than the ring holds, and while no send is under way no more than the threshold. |
| UplinkWrites.NoneStranded | node_main/network.cpp:787-794 | When every write ends a line, nothing ever waits without a send under way. |
| TimerQueue.InsertKeepsDeadlines | suli/suli2.cpp:293-349 | Insertion in 32-bit arithmetic keeps every other deadline if and only if a newcomer shifted on a tie has 80 ticks of room before the entry behind it. |
| TimerQueue.LateWitness | suli/suli2.cpp:293-349 | With deadlines at 64 and 80 ticks a newcomer of 64, which 53,687,092 microseconds become in 32 bits, makes the second one 2^32 ticks late. |
| TimerQueue.NewDeadline | suli/suli2.cpp:293-349 | The newcomer is due after its interval, or 80 ticks later on a tie. |
| TimerQueue.HealthyRoom | suli/suli2.cpp:293-349 | Among multiples of 80 ticks that room always exists. |
| TimerQueue.FireKeeps | suli/suli2.cpp:351-386 | The interrupt finds the head exactly when due, keeps every other deadline, and re-queues a repeating timer one interval on. |
| TimerQueue.RemoveKeeps | suli/suli2.cpp:414-439 | Removal keeps every other deadline. |
| TimerQueue.RunKeeps | suli/suli2.cpp:293-444 | Over any run in which what is inserted fits and has its room, every deadline stays in 32 bits and a timer neither fired nor removed keeps its due time. |
| TimerQueue.GridRun | suli/suli2.cpp:293-444 | Runs with intervals of whole multiples of 80 ticks, up to 2^32 - 81, are such runs. |
| TimerQueue.FiresOnTime | suli/suli2.cpp:293-412 | A timer left alone after installation, once it is at the head, fires exactly at its interval, or 80 ticks later if that time was taken. |
| TimerQueue.EveryTimerFires | suli/suli2.cpp:351-386 | Left alone with enough interrupts every queued timer comes to the head and fires exactly when due, even while repeating timers go back in ahead of it. |
| TimerRepeats.InstallSets | suli/suli2.cpp:388-412 | After an installation the timer has the given interval and flag, and no other timer's have changed. |
| TimerRepeats.InterruptSets | suli/suli2.cpp:351-386 | An interrupt takes off the head alone if it does not repeat; otherwise it is queued again with the interval and flag it had, and so is every other timer. |
| TimerRepeats.RemoveSets | suli/suli2.cpp:414-439 | A removal changes the setting of no other timer. |
| TimerRepeats.ControlSets | suli/suli2.cpp:441-444 | The new interval is that of the one timer, which keeps its flag; no other setting changes. |
| TimerRepeats.StaysRepeating | suli/suli2.cpp:293-444 | Over every run of harmless events a repeating timer that nobody sets or removes is still queued with the setting it had. |
| TimerRepeats.LoneTimer | suli/suli2.cpp:351-412 | A repeating timer installed into an empty queue is still queued after every number of interrupts; the n-th comes at n intervals, and the next is due one later. |
| TimerRepeats.FiresAgain | suli/suli2.cpp:351-386 | Among others, a repeating timer that has fired comes back to the head and fires one interval later, or 80 ticks after that if the time was taken. |
| TimerRepeats.FiresForEver | suli/suli2.cpp:351-386 | It fires any number of times. |
| TimerList.List.FindPlace | suli/suli2.cpp:301-339 | The search along the linked list stops at the timer itself, before the first later deadline, or at the end. |
| TimerList.List.InsertTimer | suli/suli2.cpp:293-349 | The linked list becomes the queue with the timer inserted, links in both directions included. |
| TimerList.List.InstallTimer | suli/suli2.cpp:388-412 | Fields set, then inserted; a timer already queued stays where it is. |
| TimerList.List.Isr | suli/suli2.cpp:351-386 | The list becomes the queue after its head has fired; the next timeout is the new head's ticks. |
| TimerList.List.RemoveTimer | suli/suli2.cpp:414-439 | The list becomes the queue without the timer. |
| TimerList.List.ControlTimer | suli/suli2.cpp:441-444 | Only the interval changes. |
| Base64.Encode | node_main/polarssl/base64.c:81-142 | The padded text and a terminating zero, or the size needed with nothing written. |
| Base64.Scan | node_main/polarssl/base64.c:155-190 | The first pass accepts exactly the texts with blanks only around line ends and at most two pads after the letters, and counts characters and pads. |
| Base64.DecodedFits | node_main/polarssl/base64.c:195-219 | The second pass writes no more than the first pass counted. |
| Base64.Transform | node_main/polarssl/base64.c:204-219 | The second pass writes exactly the decoded bytes, also when it writes over its own input. |
| Base64.Decode | node_main/polarssl/base64.c:147-224 | Errors, sizes and bytes of a call, the destination absent, separate, or the source itself with the same result; with nothing to decode the length is left as it was. |
| Base64.EncodeDecode | node_main/polarssl/base64.c:81-224 | Every encoding is accepted and decodes to what went in (RFC 1521 section 5.2). |
| Base64Bits.LetterOf | node_main/polarssl/base64.c:50-78 | The letter of each value is its place in the alphabet of RFC 1521, and back. |
| Base64Bits.OnlyLetters | node_main/polarssl/base64.c:62-78 | No other character is a letter. |
| Base64Bits.OtherCharacters | node_main/polarssl/base64.c:62-78 | The pad is the equals sign, and the blanks are space, CR and LF. |
| Base64Bits.EncodedBits | node_main/polarssl/base64.c:111-137 | The six-bit values of an encoding, pads counting as zero, are the bits of the input in order, followed by eight zeros for each byte missing to a group of three. |
| Base64Bits.DecodedBits | node_main/polarssl/base64.c:204-219 | Every bit of the decoded bytes is the bit in the same place of the letters' six-bit values, also for texts the encoder never writes. |
| Base64Bits.KnownTexts | node_main/polarssl/base64.c:81-224 | "Man" is "TWFu" both ways, and three zero bytes are "AAAA". |
| Base64Bits.KnownAccepted | node_main/polarssl/base64.c:155-190 | "TW", a space, CRLF, "Fu" is accepted as "TWFu". |
| Base64Bits.KnownRefused | node_main/polarssl/base64.c:155-190 | A space or a lone CR inside a line and a letter after a pad are refused. |
| Strtol.Strtol | esp8266_arduino/libc_replacements.c:490-564 | The longest run of digits after spaces, sign and prefix, clamped to the range of a long, with its end and the range error, for every int as the base: one below 1 has no digits. |
| Strtol.Strtoul | esp8266_arduino/libc_replacements.c:566-620 | The same for an unsigned long, negated modulo 2^32 after a minus. |
| Strtol.CutOff | esp8266_arduino/libc_replacements.c:515-554 | The cut-off test is right exactly when one more digit passes the limit. |
| Strtol.Accumulate | esp8266_arduino/libc_replacements.c:535-554 | The accumulator never passes the limit. |
| Strtol.Ltoa | esp8266_arduino/core_esp8266_noniso.c:83-106 | The text of every long but LONG_MIN in bases 2 to 16, written backwards and reversed in place; an empty text for other bases. |
| Strtol.Ultoa | esp8266_arduino/core_esp8266_noniso.c:129-148 | The same for an unsigned long. |
| Strtol.Reverse | esp8266_arduino/core_esp8266_noniso.c:46-56 | Reverses a prefix of the buffer in place. |
| Strtol.LongRoundTrip | esp8266_arduino/libc_replacements.c:490-564 | Reading back what is written for a long gives it, for every base written. |
| Strtol.UlongRoundTrip | esp8266_arduino/libc_replacements.c:566-620 | Reading back what is written for an unsigned long gives it. |
| StrtolTexts.DigitsAre | esp8266_arduino/libc_replacements.c:539-547 | A character is a digit of value d exactly if it stands at place d of 0 to 9 and a to z, in either case. |
| StrtolTexts.HeaderIs | esp8266_arduino/libc_replacements.c:500-518 | After white space and a sign: 0x or 0X makes base 0 or 16 hexadecimal, and otherwise base 0 means 8 after a zero and else 10. |
| StrtolTexts.NumberOfText | esp8266_arduino/libc_replacements.c:490-620 | For every text of white space, sign, prefix, digits and rest: the signed number the digits denote, limited to a long, or modulo 2^32 for an unsigned long, and an end just past the digits, or the start if there are none. |
| StrtolTexts.KnownNumbers | esp8266_arduino/libc_replacements.c:490-620 | "123" in base 10 is 123, "fF" in base 16 is 255 and "20" in base 8 is 16. |
| StrtolTexts.WrittenDigit | esp8266_arduino/core_esp8266_noniso.c:92-97 | Digits are written in lower case. |
| StrtolTexts.FirstWritten | esp8266_arduino/core_esp8266_noniso.c:92-97 | Only the text of zero begins with a zero, and it is that one digit. |
| StrtolTexts.KnownText | esp8266_arduino/core_esp8266_noniso.c:83-106 | -10 is written as "-10". |
| PwmSort.SortArray | esp8266_arduino/core_esp8266_wiring_pwm.c:36-49 | The strictly increasing list of the distinct values of an array of any length, in place; for an empty one the count is still 1. |
| PwmSort.DistinctValuesUnique | esp8266_arduino/core_esp8266_wiring_pwm.c:36-49 | There is only one such list. |
| Pwm.Generator.GetMask | esp8266_arduino/core_esp8266_wiring_pwm.c:51-58 | The active pins of a value. |
| Pwm.Generator.Prep | esp8266_arduino/core_esp8266_wiring_pwm.c:60-88 | The published steps and masks are the plan for the active pins. |
| Pwm.Generator.AnalogWrite | esp8266_arduino/core_esp8266_wiring_pwm.c:121-141 | Mask and values after a write, with the plan remade. |
| Pwm.Generator.Isr | esp8266_arduino/core_esp8266_wiring_pwm.c:90-112 | Lowers the next group, or restarts with all pins raised, and loads the matching step. |
| Pwm.StepsSum | esp8266_arduino/core_esp8266_wiring_pwm.c:60-88 | The steps add up to PWMRANGE. |
| Pwm.MasksDisjoint | esp8266_arduino/core_esp8266_wiring_pwm.c:60-88 | No pin is in two masks. |
| Pwm.PinHeldForValue | esp8266_arduino/core_esp8266_wiring_pwm.c:60-112 | A pin is high for exactly its value in a cycle; an active pin of value zero for the whole range. |
| Pwm.Generator.Cycle | esp8266_arduino/core_esp8266_wiring_pwm.c:90-112 | Running the interrupt through one cycle holds a pin for exactly that long, in PWMRANGE steps in all. |
| OtaStatus.StatusBoard.SendNotification | handlers.py:1576-1585 | A status answers the oldest waiting poll, or is kept. |
| OtaStatus.StatusBoard.Get | handlers.py:1608-1617 | A poll takes the oldest kept status, or waits. |
| OtaStatus.StatusBoard.Clear | handlers.py:1462-1467 | A build empties both queues of the node. |
| OtaStatus.AlwaysOneChannel | handlers.py:1576-1617 | In every interleaving of posts, polls, resets and expiries, for every node, the two queues are one FIFO channel. |
| OtaStatus.Rendezvous | server.py:297-308 | Never both a waiting poll and a kept status; the k-th status since a reset answers the k-th poll. |
| OtaStatus.EveryFate | handlers.py:1608-1626 | In every run, what became of each poll: still waiting, given up, or answered with the status of its place in the queue. |
| OtaStatus.StatusReadExactly | handlers.py:1608-1626 | The k-th status since a reset is read by the k-th poll if and only if that poll's timeout did not go off between its coming in and the answer. |
| OtaStatus.LostAtPostExactly | handlers.py:1576-1585 | A status is lost as it is posted if and only if a poll of its node waits and the oldest one has given up. |
| OtaStatus.LostWitness | handlers.py:1576-1626 | Four events after which a status is lost while a later poll waits for it. |
| ConnPool.DeviceServer.AcceptConnection | server.py:479-481 | A new connection is open and in no pool entry. |
| ConnPool.DeviceServer.HelloAccepted | server.py:169-187 | A hello kills the older connection of its serial as junk and takes its place in the pool. |
| ConnPool.DeviceServer.KillMyself | server.py:422-429 | Killed once; announced as offline unless junk. |
| ConnPool.DeviceServer.OnClose | server.py:435-458 | Out of the pool only if still the entry. |
| ConnPool.AlwaysConsistent | server.py:169-187 | In every interleaving, entries are open connections under their own serial and every live connection is one. |
| ConnPool.LiveIsPooled | server.py:169-187 | Each live connection is the entry for its serial, so there is at most one per serial. |
| ConnPool.LateCloseKeepsSuccessor | server.py:435-458 | A late close of another connection never evicts a live one. |
| ConnPool.StaysPooled | server.py:422-458 | Over any run only its own kill or close, or a newer hello of the same serial, takes a connection out. |
| ConnPool.ReplacementIsQuiet | server.py:180-187 | The connection a hello replaces is killed without announcing the node as offline. |
| ConnPoolRuns.HelloTakes | server.py:169-187 | In every run a hello on an open connection that waits for one makes it live under its serial and the entry for it, kills the older connection of the serial, and leaves every other entry and connection as it was. |
| ConnPoolRuns.HelloIgnored | server.py:169-187 | Any other hello changes nothing. |
| ConnPoolRuns.CloseTakes | server.py:435-458 | A close takes out the connection's own entry alone and changes no other connection. |
| ConnPoolRuns.KillTakes | server.py:422-426 | A kill ends the connection's life and leaves the pool and every other connection as they were. |
| ConnPoolRuns.AcceptTakes | server.py:479-481 | An accepted connection waits for its hello, and nothing else changes. |
| ConnPoolRuns.AnnouncedExactly | server.py:422-429 | In every reachable state killing a connection announces its node as offline if and only if the connection is live. |
| ConnPoolRuns.KnownRun | server.py:169-187 | The first hello of a node puts it into the pool. |

## Left out

- ModMpi: R and B one object is excluded, because the source's second correction loop then compares R with itself and does not end.
- InvMod: N = 1 is excluded by the precondition, because the source does not terminate there; see NoExitForOne.
- ExpMod: X the same object as E or N is excluded, because the source zeroes X before it has read them; a cached R^2 mod N passed in must be the right one.
- WriteString: once the size test passes, a buffer that holds the text is a precondition, since the source writes it whole; SizeExact says when the size it asks for is one short.
- MontMul: the lengths and bounds its callers establish are its precondition.
- MulHlp: room for the carry above the product is its precondition, as in the source, where the carry loop has no bound.
- Grow: the limit POLARSSL_MPI_MAX_LIMBS and failing allocations are not modelled, here or elsewhere in bignum; the limb list is a field that is reassigned, since the source reallocates it.
- Primality testing, prime generation, random filling, conditional assignment and swap, binary import and export, and file input and output of bignum.c.
- The division of bignum.c without a double-width type, and the assembler and unrolled forms of bn_mul.h: the multiply loops are modelled one limb at a time.
- AES-NI and PadLock paths, ROM tables, CFB8 and the self tests of aes.c; key and table memory clearing.
- CryptCfb128: buffers that overlap with the output ahead of the input are excluded, since the source then reads what it has written.
- CryptCtr: buffers that overlap with the output ahead of the input are excluded, as for CryptCfb128.
- CryptCbc: buffers that overlap with the output ahead of the input are excluded, as for CryptCfb128.
- NetworkPuts: the search for a CRLF in the C string is an argument, since the source may search past the given length; a negative length is not modelled.
- UplinkText: reconnections, which restart the cipher while the ring keeps its bytes, are not part of a run.
- The downlink, whose framing follows TCP segmentation, and the heartbeat, Wi-Fi, DNS, EEPROM and LED code of network.cpp.
- OnRead: what the server does with a decoded line beyond keeping its order; exceptions that close the connection.
- InsertTimer: re-inserting a queued timer with an interval shorter than its place in the list is excluded, because the source then links it twice.
- InstallTimer: the conversion from microseconds and the hardware compare register are not modelled.
- Isr: in TimerList, the callback leaves the list alone, and the compare register is not modelled.
- FiresForEver: as for EveryTimerFires, intervals are multiples of 80 ticks up to 2^32 - 81, and those of repeating timers are positive.
- FiresAgain: the same.
- EveryTimerFires: intervals are multiples of 80 ticks up to 2^32 - 81, and those of repeating timers are positive.
- Encode: lengths whose bit count overflows size_t are not modelled, nor for Decode.
- Ltoa: LONG_MIN is excluded, because its absolute value is not a long and the source then indexes before its digit table; itoa and utoa, which are the same code, have no member of their own.
- Prep: more than 16 active pins with nonzero values are excluded, because the source's temporaries then overflow.
- AnalogWrite: negative values and the digital level of a pin taken out are not modelled, and a cycle is not interrupted by a write.
- Get: the wait on the future and the response are not modelled; a poll giving up is an event of the run, which leaves the queues as they are.
- HelloAccepted: reading the hello, the database look-up and the signature check come before it and are not modelled.
- rpc_server, the message bus, the cache, HTTP handlers, the firmware build scripts, drivers and SDK code; server_lean.py, which largely repeats server.py.
