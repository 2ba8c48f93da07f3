# A verified model of the ATM, validator and sorting cores

This project models, in Dafny, the decision logic of a collection of small
Java programs, and proves what each operation promises.

- **ATM-System term deposits.** `InterestCalculator` holds the
  term → annual-rate table (3, 6, 12, 24 and 36 months) and the
  simple-interest maturity amount. `DepositAccount` is one deposit, which
  ages by simulated years, matures, and is redeemed once. `SimpleAccount`
  is the never-negative cash balance. `AtmService` puts these together:
  opening a deposit, the active list, redeeming, the yearly tick and the
  portfolio total. `AppFx.parseAmount` is the strict amount parser that
  feeds the service. Every `BigDecimal` in this core has at most two
  fraction digits, so amounts are whole cents, rates are per-mille, and
  HALF_UP and DOWN rounding are integer divisions (module `Money`).
- **The two console ATMs' registries** (`ATM1.0.0` and `ATM2`, `User` and
  `Bank`). Both cover username normalisation, duplicate refusal, log-in,
  guarded deposit and withdrawal, password change, the default
  administrator, and the interest run as one sequential call. ATM1 signals
  a refusal with an exception, modelled as a `Failure`. ATM2 answers null
  or false, modelled as `None` or `false`, and adds the gender parsed from
  free text.
- **Input validators.** These are `Person.isValidName`, `isValidAge` and
  `createFromArgs` of the command-line person record, and the student
  information system's `check*` rules, its student limit and id counter,
  its ranking by Java score, and its file-suffix normalisation.
- **Sorting.** The ten sorts of `SortBenchmark` and the four of
  `BenchmarkRunner`, with their helpers and `validate`. Each Java array is
  a `seq<int>` threaded through the method. Each sort is proved to return
  a permutation of its input, and a sorted one whenever the input is
  non-negative and within the bounds the sort takes as given (counting
  sort needs every element in 0..maxValue). Bucket sort is proved to sort
  every input it accepts, including the small negative values that Java's
  truncating division sends to bucket 0. Radix sort does not sort every
  negative input: see `SortBenchmark.NegativeUnsorted`.

Java's own library behaviour is written out where the code depends on it
(modules `JavaText`, `DecimalText` and `WordPattern`):

- `String.trim` (code points up to U+0020);
- `String.isBlank` (`Character.isWhitespace`);
- the regular-expression class `\s`;
- `String.length` in UTF-16 units;
- `Integer.parseInt` with its overflow;
- `String.matches` of the two name patterns;
- integer `/` and `%`, which truncate toward zero.

ATM2 balances are `double` in the source. They are kept as exact reals
rather than reduced to whole units.

## Model

| member | source | states |
|---|---|---|
| InterestCalculator.AnnualRate | ATM-System/src/main/java/org/example/InterestCalculator.java:37-46 | the five supported terms (3, 6, 12, 24, 36 months) and only they have a rate, 1.5% to 3.5%; any other term fails with InvalidTerm |
| InterestCalculator.RateIncreasesWithTerm | ATM-System/src/main/java/org/example/InterestCalculator.java:35-43 | a longer supported term always earns a strictly higher annual rate |
| InterestCalculator.YearsExact | ATM-System/src/main/java/org/example/InterestCalculator.java:27 | for every supported term, months/12 at four decimals loses nothing: twelve times the year count is exactly months |
| InterestCalculator.Calculate | ATM-System/src/main/java/org/example/InterestCalculator.java:19-31 | a non-positive principal fails first, then an unsupported term; otherwise the result is at least the principal and equals principal plus principal × rate × months / 12 rounded half-up to cents once |
| InterestCalculator.SingleRounding | ATM-System/src/main/java/org/example/InterestCalculator.java:27-30 | rounding the nine-decimal sum of principal and interest to cents gives the same as rounding the exactly computed interest |
| InterestCalculator.TwelveMonthExample | ATM-System/src/main/java/org/example/InterestCalculator.java:19-31 | 1000.00 for twelve months matures at 1025.00 |
| InterestCalculator.RateDisplay | ATM-System/src/main/java/org/example/InterestCalculator.java:51-54 | the display is the rate times 100 at exactly two decimals followed by "%", and fails for an unsupported term |
| InterestCalculator.RateDisplayExample | ATM-System/src/main/java/org/example/InterestCalculator.java:51-54 | the twelve-month rate displays as "2.50%" |
| DepositAccount.Open | ATM-System/src/main/java/org/example/DepositAccount.java:16-28 | a non-positive principal or unsupported term is refused with the calculator's error; otherwise the deposit keeps principal and term, is unredeemed, has no elapsed years and its maturity amount is the calculator's |
| DepositAccount.RequiredYears | ATM-System/src/main/java/org/example/DepositAccount.java:58-61 | the required years are the ceiling of months / 12: the least y with 12y ≥ months |
| DepositAccount.Interest | ATM-System/src/main/java/org/example/DepositAccount.java:46-48 | the interest of a constructed deposit is non-negative and is the half-up-rounded simple interest of its principal, rate and term |
| DepositAccount.AddYear | ATM-System/src/main/java/org/example/DepositAccount.java:63-65 | one more elapsed year and nothing else changed |
| DepositAccount.MarkRedeemed | ATM-System/src/main/java/org/example/DepositAccount.java:54-56 | the deposit is redeemed and nothing else changed |
| DepositAccount.CurrentValue | ATM-System/src/main/java/org/example/DepositAccount.java:71-80 | the current value lies between principal and maturity amount; once mature it is the maturity amount; before that it is the principal plus the interest × elapsed years × 12 / term months rounded HALF_UP to cents, which is the principal before the first year |
| DepositAccount.AccruedExact | ATM-System/src/main/java/org/example/DepositAccount.java:76-78 | dividing by the four-digit year count gives the same cents as the exact ratio interest × years × 12 / months |
| DepositAccount.AccruedBounds | ATM-System/src/main/java/org/example/DepositAccount.java:75-79 | before maturity the pro-rata interest is between none and all of it, and none at year 0 |
| DepositAccount.CurrentValueMonotone | ATM-System/src/main/java/org/example/DepositAccount.java:63-80 | a further simulated year keeps the deposit valid and never lowers its current value |
| DepositAccount.HalfwayExample | ATM-System/src/main/java/org/example/DepositAccount.java:71-80 | 1000.00 for 24 months matures at 1060.00 and is worth 1030.00 after one year |
| SimpleAccount.Open | ATM-System/src/main/java/org/example/SimpleAccount.java:14-21 | a blank trimmed owner fails OwnerBlank, else a negative truncated initial amount fails NegativeInitial; otherwise the trimmed owner with the initial amount cut down to cents, never negative |
| SimpleAccount.TinyNegativeAccepted | ATM-System/src/main/java/org/example/SimpleAccount.java:18-19 | −0.001 truncates to 0.00 and is accepted, because the sign is tested after truncation |
| SimpleAccount.NonNegativeInitialAccepted | ATM-System/src/main/java/org/example/SimpleAccount.java:18-20 | every non-negative initial amount is accepted, and truncation never raises it |
| SimpleAccount.Deposit | ATM-System/src/main/java/org/example/SimpleAccount.java:24-28 | succeeds exactly for a present positive amount, adding it to the balance and keeping the owner |
| SimpleAccount.Withdraw | ATM-System/src/main/java/org/example/SimpleAccount.java:31-36 | succeeds exactly for a present amount in 1..balance, subtracting it and keeping the owner |
| SimpleAccount.BalanceStaysNonNegative | ATM-System/src/main/java/org/example/SimpleAccount.java:24-36 | no successful deposit or withdrawal makes a non-negative balance negative |
| SimpleAccount.WithdrawUndoesDeposit | ATM-System/src/main/java/org/example/SimpleAccount.java:24-36 | withdrawing what was just deposited restores the account |
| SimpleAccount.DepositUndoesWithdraw | ATM-System/src/main/java/org/example/SimpleAccount.java:24-36 | depositing what was just withdrawn restores the account |
| Money.TruncateToCents | ATM-System/src/main/java/org/example/SimpleAccount.java:18 | setScale(2, DOWN): the cents count is the amount rounded toward zero, within one cent of it and never beyond it in magnitude |
| AtmService.Create | ATM-System/src/main/java/org/example/AtmService.java:12-15 | the service starts with the given account and no term deposits, and is valid when the balance is non-negative |
| AtmService.Deposit | ATM-System/src/main/java/org/example/AtmService.java:17-24 | a null amount is refused as invalid and a non-positive one by the account; success exactly for a positive amount, which is added to cash; a refusal changes nothing |
| AtmService.Withdraw | ATM-System/src/main/java/org/example/AtmService.java:26-33 | a null amount is refused as invalid; success exactly for an amount in 1..balance, which leaves cash; a refusal changes nothing |
| AtmService.CreateTermDepositAsWritten | ATM-System/src/main/java/org/example/AtmService.java:35-56 | a null or non-positive amount is refused as invalid and an amount above the balance as insufficient balance, both with no change; success exactly for an amount in 1..balance and a supported term; with an unsupported term the answer is a refusal yet the amount has already been withdrawn, and no other refusal changes anything |
| AtmService.AsWrittenLosesPrincipal | ATM-System/src/main/java/org/example/AtmService.java:44-55 | with an unsupported term the as-written operation refuses and the customer's total value drops by the amount |
| AtmService.AsWrittenCounterexample | ATM-System/src/main/java/org/example/AtmService.java:44-55 | 100.00 in cash, a 100.00 deposit for 5 months: refused, the cash is 0 and no deposit exists |
| AtmService.CreateTermDeposit | ATM-System/src/main/java/org/example/AtmService.java:35-56 | as the source but validating the term first: the same refusals in the same order (invalid amount, insufficient balance, invalid term), success exactly when the source succeeds, the amount moved from cash into a new deposit, and a refusal changes nothing |
| AtmService.CreateAgreesOnSupportedTerms | ATM-System/src/main/java/org/example/AtmService.java:35-56 | for every supported term the corrected and the as-written operations give the same outcome and state |
| AtmService.CreatePreservesTotal | ATM-System/src/main/java/org/example/AtmService.java:35-56 | the corrected operation keeps the service valid and the total value (cash plus live deposits) unchanged |
| AtmService.Active | ATM-System/src/main/java/org/example/AtmService.java:58-60 | the active deposits are unredeemed members of the list and no more than it holds |
| AtmService.ActiveIsLive | ATM-System/src/main/java/org/example/AtmService.java:58-60 | the active list equals the front-to-back filter of unredeemed deposits: the same elements, in creation order, each once |
| AtmService.ActiveConcat | ATM-System/src/main/java/org/example/AtmService.java:58-60 | listing the deposits of two lists joined is listing each and joining the results |
| AtmService.ActivePrefix | ATM-System/src/main/java/org/example/AtmService.java:58-60 | the active list of a prefix is a prefix of the active list: creation order is kept |
| AtmService.ActiveComplete | ATM-System/src/main/java/org/example/AtmService.java:58-60 | every unredeemed deposit is listed, at the position counting the unredeemed deposits created before it |
| AtmService.GetTotalValue | ATM-System/src/main/java/org/example/AtmService.java:108-118 | the loop returns cash plus the current value of every unredeemed deposit |
| AtmService.ActiveValueAppend | ATM-System/src/main/java/org/example/AtmService.java:50 | appending a valid deposit adds its current value to the live total, unless it is redeemed |
| AtmService.RedeemTermDeposit | ATM-System/src/main/java/org/example/AtmService.java:62-85 | an index outside the full list is refused first, then a redeemed deposit, then an immature one with the years still needed, ⌈term / 12⌉ − elapsed (positive); success exactly for a live mature deposit, whose maturity amount is credited while it alone is marked redeemed; a refusal changes nothing |
| AtmService.ActiveValueRedeem | ATM-System/src/main/java/org/example/AtmService.java:79-80 | marking one live deposit redeemed removes exactly its current value from the live total |
| AtmService.RedeemPreservesTotal | ATM-System/src/main/java/org/example/AtmService.java:62-85 | redeeming keeps the service valid and the total value unchanged: the deposit's value moves into cash |
| AtmService.RedeemOnce | ATM-System/src/main/java/org/example/AtmService.java:69-71 | after a successful redemption the same index is refused as already redeemed |
| AtmService.ActiveIndex | ATM-System/src/main/java/org/example/AtmService.java:58-60 | the m-th active deposit sits at a full-list position with exactly m active deposits before it |
| AtmService.RedeemShown | ATM-System/src/main/java/org/example/AtmService.java:62-85 | redeeming by the number shown in the active list: success exactly for a shown, mature deposit; its maturity amount is credited and exactly the deposit at that shown number's full-list position is marked redeemed; never refused as already redeemed, and a refusal changes nothing |
| AtmService.ActiveRedeem | ATM-System/src/main/java/org/example/AtmService.java:58-60 | marking one live deposit redeemed removes exactly its entry from the active list |
| AtmService.RedeemShownPreservesTotal | ATM-System/src/main/java/org/example/AtmService.java:62-85 | redeeming by shown number keeps the service valid and the total value unchanged: the deposit's value moves into cash |
| AtmService.RedeemShownListing | ATM-System/src/main/java/org/example/AtmService.java:58-85 | a shown, mature deposit is redeemed successfully, and afterwards the listing is the old listing with exactly the entry at that number removed |
| AtmService.ShownIndexMismatch | ATM-System/src/main/java/org/example/AtmService.java:62-67 | with one redeemed deposit first, the source refuses shown number 0 and pays the wrong deposit for shown number 1 |
| AtmService.Tick | ATM-System/src/main/java/org/example/AtmService.java:94-103 | a year ages each live deposit by one and leaves redeemed ones alone, position by position |
| AtmService.ProcessYearPassed | ATM-System/src/main/java/org/example/AtmService.java:91-106 | the loop returns the aged list and counts the live deposits that were immature and are mature after the year |
| AtmService.YearPassedOne | ATM-System/src/main/java/org/example/AtmService.java:95-102 | one loop round ages deposit i and counts it when it just matured |
| AtmService.TickValid | ATM-System/src/main/java/org/example/AtmService.java:91-106 | a year keeps every deposit valid |
| AtmService.TickMaturesCounted | ATM-System/src/main/java/org/example/AtmService.java:91-106 | the matured count is exactly how many deposits leave the immature live set |
| AtmService.TickNeverLowersValue | ATM-System/src/main/java/org/example/AtmService.java:91-106 | a year never lowers the current value of the live deposits |
| AppFx.ParseAmount | ATM-System/src/main/java/org/example/AppFx.java:218-228 | null for null text; otherwise a value exactly when the trimmed text matches the amount pattern and denotes a positive amount, and then that amount in cents |
| AppFx.ParseIgnoresSurroundingBlanks | ATM-System/src/main/java/org/example/AppFx.java:220 | the text and its trim parse alike |
| AppFx.ParseFixed2 | ATM-System/src/main/java/org/example/AppFx.java:218-228 | every positive cents amount reads back from its two-decimal rendering |
| AppFx.ParseWhole | ATM-System/src/main/java/org/example/AppFx.java:221-223 | a whole number n reads as n × 100 cents |
| AppFx.ParseTrimmed | ATM-System/src/main/java/org/example/AppFx.java:221-224 | on trimmed text the result is decided by the pattern and the positivity test alone |
| AppFx.OneDecimalExample | ATM-System/src/main/java/org/example/AppFx.java:221-223 | "12.5" reads as 12.50 |
| AppFx.ZeroRefused | ATM-System/src/main/java/org/example/AppFx.java:224 | "0.00" matches the pattern yet gives null |
| AppFx.ThreeDecimalsRefused | ATM-System/src/main/java/org/example/AppFx.java:221 | "1.005" does not match and gives null |
| AppFx.SignRefused | ATM-System/src/main/java/org/example/AppFx.java:221 | "-5" does not match and gives null |
| Atm1User.NewUser | ATM1.0.0/src/User.java:28-35 | a new user keeps the given username, name, gender and password and starts at balance 0 |
| Atm1User.Credit | ATM1.0.0/src/User.java:81-83 | the balance rises by the amount and nothing else changes |
| Atm1User.Debit | ATM1.0.0/src/User.java:89-91 | the balance falls by the amount and nothing else changes |
| Atm1User.DebitUndoesCredit | ATM1.0.0/src/User.java:81-91 | a debit of what was credited restores the user |
| Atm1User.Round | ATM1.0.0/src/User.java:102 | Math.round of a non-negative value is the nearest integer, a tie rounding up |
| Atm1User.ApplyInterest | ATM1.0.0/src/User.java:98-107 | nothing for a non-positive balance or rate; otherwise the credited interest is balance × rate rounded to the nearest unit, never negative, and the balance grows by exactly it |
| Atm1User.InterestExamples | ATM1.0.0/src/User.java:98-107 | 1000 at 2% earns 20; 10 at 2% earns nothing |
| Atm1User.UpdatePassword | ATM1.0.0/src/User.java:114-124 | the new password matches afterwards and nothing else changes |
| Atm1Bank.EnsureDefaultAdmin | ATM1.0.0/src/Bank.java:209-214 | afterwards "admin" is present; an existing entry is kept, otherwise the default administrator is added |
| Atm1Bank.Construct | ATM1.0.0/src/Bank.java:29-46 | the constructed bank holds every loaded user unchanged and no key but those and "admin"; when "admin" was not loaded, it is the default administrator with password "123456"; the bank has the given rate and is valid when the loaded users are |
| Atm1Bank.Normalize | ATM1.0.0/src/Bank.java:233-242 | a null or blank username is refused as blank; otherwise the trimmed username |
| Atm1Bank.NormalizeIdempotent | ATM1.0.0/src/Bank.java:233-242 | a normalised username normalises to itself |
| Atm1Bank.CreateUser | ATM1.0.0/src/Bank.java:66-77 | a blank username fails first; success exactly when the normalised username is free, filing a zero-balance user under it with trimmed name and gender; validity is kept |
| Atm1Bank.Authenticate | ATM1.0.0/src/Bank.java:86-95 | a user exactly when both inputs are present, the trimmed username is filed and the password matches, and then that user |
| Atm1Bank.CreatedUserAuthenticates | ATM1.0.0/src/Bank.java:66-95 | a freshly created user logs in with the username as typed and the chosen password, with balance 0 |
| Atm1Bank.RequireUser | ATM1.0.0/src/Bank.java:221-226 | the managed user exactly when the handle is present and its username is filed, else InvalidUser |
| Atm1Bank.QueryBalance | ATM1.0.0/src/Bank.java:103-105 | the managed user's balance, never negative in a valid bank; an unknown user is refused |
| Atm1Bank.Deposit | ATM1.0.0/src/Bank.java:128-134 | an unknown user fails first, then a non-positive amount; success exactly otherwise, crediting only that user; validity is kept |
| Atm1Bank.Withdraw | ATM1.0.0/src/Bank.java:142-151 | an unknown user, a non-positive amount and an amount above the balance fail in that order; success debits only that user and keeps validity |
| Atm1Bank.WithdrawUndoesDeposit | ATM1.0.0/src/Bank.java:128-151 | withdrawing what was just deposited restores the bank |
| Atm1Bank.ChangePassword | ATM1.0.0/src/Bank.java:159-168 | an unknown user, then a wrong old password, then a null or blank new one are refused; success sets only that user's password and keeps validity |
| Atm1Bank.ChangedPasswordAuthenticates | ATM1.0.0/src/Bank.java:159-168 | after a change the new password logs in and any different old one no longer does |
| Atm1Bank.Credited | ATM1.0.0/src/Bank.java:111-120 | one interest run keeps the usernames, changes nothing but balances, lowers no balance, leaves users with a non-positive balance or rate alone and keeps validity |
| Atm1Bank.ApplyInterestToAllUsers | ATM1.0.0/src/Bank.java:111-120 | the loop credits every user at the bank's rate and answers true exactly when some user earned positive interest |
| Atm2User.HonorificInjective | ATM2/src/User.java:14-27 | the three honorifics differ, so the greeting identifies the gender |
| Atm2User.FromInput | ATM2/src/User.java:32-44 | null and blank answers are unknown; otherwise male exactly when the first trimmed, lower-cased character is 男 or m, female exactly when it is 女 or f |
| Atm2User.FromInputUpperCase | ATM2/src/User.java:36-38 | "M" is male, because the answer is lower-cased first |
| Atm2User.FromInputOtherExamples | ATM2/src/User.java:40-43 | "女士" is female and "x" unknown |
| Atm2User.GenderOrUnknown | ATM2/src/User.java:62 | a null gender is stored as unknown, any other as given |
| Atm2User.MakeUser | ATM2/src/User.java:58-66 | username and name are trimmed, the password kept, and the balance is max(0, opening balance) |
| Atm2User.NewUser | ATM2/src/User.java:54-56 | the short constructor opens with a zero balance and the trimmed username |
| Atm2User.SetName | ATM2/src/User.java:76-78 | the name becomes the trimmed argument and nothing else changes |
| Atm2User.SetGender | ATM2/src/User.java:84-86 | the gender becomes the argument, unknown for null, and nothing else changes |
| Atm2User.SetPassword | ATM2/src/User.java:92-94 | the password becomes the argument and nothing else changes |
| Atm2User.IncreaseBalance | ATM2/src/User.java:104-106 | the balance rises by the amount and nothing else changes |
| Atm2User.DecreaseBalance | ATM2/src/User.java:108-110 | the balance falls by the amount and nothing else changes |
| Atm2User.DecreaseUndoesIncrease | ATM2/src/User.java:104-110 | a decrease by what was added restores the user |
| Atm2Bank.InitialValid | ATM2/src/Bank.java:18-30 | a new bank (no users, rate 0.0001) is valid |
| Atm2Bank.SetInterestRate | ATM2/src/Bank.java:32-36 | a non-negative rate is taken, a negative one ignored; users are untouched and validity kept |
| Atm2Bank.AdminConstructed | ATM2/src/Bank.java:104 | the default administrator is what the full user constructor builds from its texts |
| Atm2Bank.EnsureDefaultAdmin | ATM2/src/Bank.java:102-106 | afterwards "admin" is present; an existing entry is kept, otherwise the default administrator is added |
| Atm2Bank.LoadUsers | ATM2/src/Bank.java:42-60 | the users become exactly the loaded ones plus "admin"; when "admin" was not loaded, it is the default administrator with password "123456"; the rate is kept, and validity of the loaded users carries over |
| Atm2Bank.UserExists | ATM2/src/Bank.java:121-126 | true exactly for a present username whose trim is filed |
| Atm2Bank.RegisterUserAsWritten | ATM2/src/Bank.java:128-139 | a null or isBlank username, or a taken trimmed one, gives null and changes nothing; otherwise a new zero-balance user filed under the trimmed username, which may be empty |
| Atm2Bank.ControlCharacterRegistersEmptyName | ATM2/src/Bank.java:129-137 | the username "\u0001" passes the blank test and registers the empty username |
| Atm2Bank.RegisterUser | ATM2/src/Bank.java:128-139 | as the source, but a username that trims to nothing is also refused, so every filed username is non-empty and the bank stays valid |
| Atm2Bank.AddUserValid | ATM2/src/Bank.java:136-137 | filing a user under its own trimmed username with a non-negative balance keeps the bank valid |
| Atm2Bank.RegisterAgreesOnNonEmptyKeys | ATM2/src/Bank.java:128-139 | whenever the username keeps a character after trimming, the corrected and the as-written operations agree |
| Atm2Bank.Login | ATM2/src/Bank.java:141-150 | a user exactly when both inputs are present, the trimmed username is filed and the password equals the stored one, and then that user |
| Atm2Bank.RegisteredUserLogsIn | ATM2/src/Bank.java:128-150 | a registered user logs in with the username as typed and the chosen password |
| Atm2Bank.GetUser | ATM2/src/Bank.java:202-207 | the user under the trimmed username, or null when absent |
| Atm2Bank.ResolveUser | ATM2/src/Bank.java:209-214 | the stored user under the handle's username, or null |
| Atm2Bank.QueryBalance | ATM2/src/Bank.java:152-155 | the stored user's balance, zero for an unknown user, never negative in a valid bank |
| Atm2Bank.Deposit | ATM2/src/Bank.java:157-164 | true exactly for a known user and a positive amount, adding it to that user only; false changes nothing; validity kept |
| Atm2Bank.Withdrawl | ATM2/src/Bank.java:166-173 | true exactly for a known user and an amount in 1..balance, taking it from that user only; false changes nothing; validity kept |
| Atm2Bank.WithdrawlUndoesDeposit | ATM2/src/Bank.java:157-173 | withdrawing what was just deposited succeeds and restores the bank |
| Atm2Bank.ChangePassword | ATM2/src/Bank.java:190-200 | true exactly for a present non-blank new password, a known user and an old password equal to the stored one, setting only that password; false changes nothing |
| Atm2Bank.ChangedPasswordLogsIn | ATM2/src/Bank.java:190-200 | after a change the new password logs in and any different old one no longer does |
| Atm2Bank.Accrued | ATM2/src/Bank.java:180-186 | with a positive rate a positive balance becomes balance × (1 + rate); otherwise the user is unchanged; only the balance changes and it never drops |
| Atm2Bank.Credited | ATM2/src/Bank.java:179-187 | an interest run keeps the usernames and accrues each user |
| Atm2Bank.CreditedValid | ATM2/src/Bank.java:175-188 | an interest run keeps a valid bank valid |
| Atm2Bank.ApplyInterestToAllUsers | ATM2/src/Bank.java:175-188 | a non-positive rate changes nothing; otherwise the loop accrues every user |
| Atm2Bank.CreditOne | ATM2/src/Bank.java:180-186 | one loop round credits user k and moves it to the visited users |
| JavaText.Trim | 222/src/Person.java:39-40 | String.trim: the result is an infix of the text with every cut-off character at most U+0020, and starts and ends with a character above U+0020 |
| JavaText.TrimIdempotent | 222/src/Person.java:83 | trimming a trimmed text changes nothing |
| JavaText.Utf16Length | 222/src/Person.java:68 | String.length counts UTF-16 units: at least the number of characters, and equal exactly when no character lies outside the Basic Multilingual Plane |
| DecimalText.Digits | 222/src/Person.java:46 | the decimal rendering of a natural number is a non-empty digit string whose only leading zero is the number 0 itself |
| DecimalText.ValueOfDigits | 222/src/Person.java:46 | reading a number's rendering back gives the number |
| DecimalText.DigitsOfValue | 222/src/Person.java:107-118 | a non-empty digit string without a leading zero is the rendering of its own value |
| DecimalText.ParseInt | 222/src/Person.java:117-118 | Integer.parseInt of a digit string gives its value exactly when it is at most Integer.MAX_VALUE, and fails otherwise |
| DecimalText.Fixed2 | ATM-System/src/main/java/org/example/InterestCalculator.java:53 | a cents amount at scale 2 shows the whole units, a point and two digits worth the remaining cents |
| WordPattern.MatchesIff | 222/src/Person.java:9 | the matching automaton accepts exactly the strings of words separated by gaps: non-empty, starting and ending with a word character, holding no other character, and with single gaps when runs are not allowed |
| WordPattern.RunMeaning | 222/src/Person.java:9 | the automaton is in its start state only on empty text, inside a word exactly on a pattern string, inside a gap exactly on a viable text ending with a gap |
| WordPattern.ViableSnoc | 222/src/Person.java:9 | a text is viable exactly when its prefix is and the new character extends it legally |
| Person.RemoveSpaces | 222/src/Person.java:88 | removing every regex white-space character leaves nothing exactly when the name is all white space |
| Person.CheckName | 222/src/Person.java:62-94 | the checks run in source order; an empty name is refused as empty and only then; the trim and only-spaces checks never refuse a name that passed the pattern |
| Person.PatternTrimmed | 222/src/Person.java:83-91 | a name that matches the pattern is its own trim and is not all white space |
| Person.ValidNameIff | 222/src/Person.java:62-94 | a name is valid exactly when it has 1..50 characters, is words separated by white-space runs and holds no two spaces in a row |
| Person.TabInRunAccepted | 222/src/Person.java:9 | "张 \t 三" is valid: a white-space run may mix tabs and spaces |
| Person.DoubleSpaceRefused | 222/src/Person.java:78-81 | "张  三" matches the pattern and is refused for its double space |
| Person.CheckAge | 222/src/Person.java:101-136 | the checks run in source order; the below-minimum check never refuses, and an overflow needs at least ten digits |
| Person.ShortFits | 222/src/Person.java:117-118 | a digit string of nine characters or fewer never overflows an int |
| Person.ValueBelow | 222/src/Person.java:117-118 | a digit string of length n denotes less than 10^n |
| Person.ValidAgeIff | 222/src/Person.java:101-136 | an age is valid exactly when it is a non-empty digit string without a leading zero whose value is at most 150 |
| Person.AgeRoundTrip | 222/src/Person.java:101-136 | a valid age string is the rendering of its value, and every age 0..150 renders to a valid string that reads back as itself |
| Person.LongAgeRejected | 222/src/Person.java:112-128 | more than three characters are never a valid age |
| Person.CreateFromArgs | 222/src/Person.java:33-48 | a person exactly when there are two arguments whose trims are a valid name and age, and then the trimmed name with an age in 0..150 whose rendering is the trimmed argument |
| Sis.CheckName | SIS/src/SIS.java:316-319 | a name passes exactly when it is words of Han characters or ASCII letters separated by single spaces, and fails with NameInvalid otherwise |
| Sis.NamesAccepted | SIS/src/SIS.java:317 | "Li Lei" and "张三" pass |
| Sis.NamesRefused | SIS/src/SIS.java:317 | "Li  Lei", " Li" and "Li3" are refused |
| Sis.CheckGender | SIS/src/SIS.java:322-325 | passes exactly for "男" and "女", else GenderInvalid |
| Sis.CheckScore | SIS/src/SIS.java:328-331 | passes exactly for 0..100, else ScoreOutOfRange |
| Sis.CheckStudentCount | SIS/src/SIS.java:310-313 | passes exactly while fewer than MAX (20) students are listed, else StudentLimitReached |
| Sis.EmptyValid | SIS/src/SIS.java:17-18 | the empty system (counter 0, no students) satisfies the invariant |
| Sis.InputStudent | SIS/src/SIS.java:59-66 | name, gender and score are checked in that order and the first failure is reported; success exactly when all pass and fewer than MAX students are listed, appending a student with the next counter value as id and incrementing the counter |
| Sis.InputStudentValid | SIS/src/SIS.java:59-66 | adding keeps the invariant (the counter counts the students, at most MAX, distinct ids 1..counter, all admissible), the new id exceeds every earlier one, and the twenty-first student is refused |
| Sis.AppendValid | SIS/src/SIS.java:63-64 | appending an admissible student with the next id to a list below MAX keeps the invariant |
| Sis.RankStudents | SIS/src/SIS.java:103-104 | the ranking keeps the counter and the multiset of students, orders them by non-increasing score, and keeps the order of the students of each score |
| Sis.RankValid | SIS/src/SIS.java:103-104 | ranking keeps the invariant |
| Sis.DistinctIds | SIS/src/SIS.java:103-104 | a permutation of students with distinct ids has distinct ids |
| Sis.InsertDescending | SIS/src/SIS.java:104 | inserting into a descending list keeps it descending |
| Sis.SortDescending | SIS/src/SIS.java:104 | the insertion sort yields a descending list |
| Sis.NoneScoring | SIS/src/SIS.java:104 | in a descending list whose head scores below v nobody scores v |
| Sis.InsertStable | SIS/src/SIS.java:104 | inserting a student appends it behind the students of its own score |
| Sis.InsertBehind | SIS/src/SIS.java:104 | inserting behind a head that scores at least as much keeps the head's contribution first |
| Sis.InsertAhead | SIS/src/SIS.java:104 | inserting ahead of a lower-scoring head: nobody else has the new student's score |
| Sis.WithScoreAppend | SIS/src/SIS.java:104 | the students of a score in a concatenation are those of each part, in order |
| Sis.SortStable | SIS/src/SIS.java:104 | the sort keeps the students of each score in their previous order |
| Sis.StableSortUnique | SIS/src/SIS.java:104 | two descending lists holding the same students of every score in the same order are equal |
| Sis.RankIsTheStableSort | SIS/src/SIS.java:104 | any descending list with the same students of each score in the same order, as List.sort's stable sort produces, is the ranking |
| Sis.SameEmptiness | SIS/src/SIS.java:104 | lists with the same students of every score are empty together |
| Sis.HeadScores | SIS/src/SIS.java:104 | the head of a descending list scores at least as much as the head of any list with the same students of every score |
| Sis.NormalizeSuffix | SIS/src/SIS.java:121-138 | an empty trimmed directory or suffix is refused first, then a suffix that was only "."; otherwise the non-empty suffix with one leading dot stripped |
| Sis.DotOptional | SIS/src/SIS.java:132-134 | "txt" and ".txt" give "txt", and only one dot is stripped |
| Sorting.AdjacentSortedIffSorted | Benchmark/src/BenchmarkRunner.java:115-120 | every neighbouring pair in order exactly when the whole sequence is sorted |
| Sorting.Swap | Benchmark/src/BenchmarkRunner.java:241-245 | the two positions exchange their values, every other position keeps its value, and the multiset is unchanged |
| Sorting.SwapInvolution | Benchmark/src/BenchmarkRunner.java:241-245 | swapping the same two positions twice restores the sequence |
| Sorting.Splice | helloworld/src/SortBenchmark.java:104 | copying a merged run back over positions lo..hi keeps everything outside, keeps the multiset, and leaves the range sorted when the run is |
| Sorting.GapPass | helloworld/src/SortBenchmark.java:130-138 | one gap-insertion pass permutes the array into one where every element is at least the one gap positions before it |
| Sorting.GapInsert | helloworld/src/SortBenchmark.java:131-137 | inserting element i among the gap-sorted first i keeps the multiset and extends the gap order to i + 1 elements |
| Sorting.GapOneSorted | helloworld/src/SortBenchmark.java:129 | an array in order at gap 1 is sorted |
| Sorting.MergeRuns | Benchmark/src/BenchmarkRunner.java:180-185 | merging two sorted runs gives a sorted sequence holding exactly their elements |
| Sorting.MergeRange | helloworld/src/SortBenchmark.java:99-103 | merging the sorted ranges lo..mid and mid..hi gives a sorted run holding exactly their elements |
| Sorting.MergeStep | helloworld/src/SortBenchmark.java:101 | one merge step keeps the merge invariant (the output sorted, holding exactly the elements taken, none above either remaining head) while fewer elements remain |
| SortBenchmark.CopyArray | helloworld/src/SortBenchmark.java:44-46 | a fresh array with the same contents |
| SortBenchmark.BubbleSort | helloworld/src/SortBenchmark.java:49-57 | the result is sorted and a permutation of the input |
| SortBenchmark.SelectionSort | helloworld/src/SortBenchmark.java:60-69 | the result is sorted and a permutation of the input |
| SortBenchmark.InsertionSort | helloworld/src/SortBenchmark.java:72-82 | the result is sorted and a permutation of the input |
| SortBenchmark.MergeSort | helloworld/src/SortBenchmark.java:85-88 | the result is sorted and a permutation of the input |
| SortBenchmark.MergeSortHelper | helloworld/src/SortBenchmark.java:90-96 | positions left..right end sorted, the multiset is kept and nothing outside changes |
| SortBenchmark.Merge | helloworld/src/SortBenchmark.java:98-105 | two adjacent sorted runs become one sorted run, keeping the multiset and everything outside |
| SortBenchmark.QuickSort | helloworld/src/SortBenchmark.java:108-125 | positions low..high end sorted, the multiset is kept and nothing outside changes |
| SortBenchmark.HoarePartition | helloworld/src/SortBenchmark.java:110-122 | the loop ends with values at most the pivot in low..j, pivot copies between j and i, values at least the pivot in i..high, both sides smaller than the range, the multiset kept and nothing outside changed |
| SortBenchmark.PartitionStep | helloworld/src/SortBenchmark.java:112-122 | one turn of the partition loop keeps its invariant and shrinks the unscanned part |
| SortBenchmark.ScanUp | helloworld/src/SortBenchmark.java:113 | the upward scan stops, within bounds, at the first value at least the pivot |
| SortBenchmark.ScanDown | helloworld/src/SortBenchmark.java:114 | the downward scan stops, within bounds, at the last value at most the pivot |
| SortBenchmark.SwapPartitions | helloworld/src/SortBenchmark.java:115-121 | swapping the out-of-place pair the scans found extends both sides of the partition |
| SortBenchmark.SideSorted | helloworld/src/SortBenchmark.java:123-124 | sorting one side in place keeps the three-way partition |
| SortBenchmark.ThreeWaySorted | helloworld/src/SortBenchmark.java:123-124 | two sorted sides around a run of pivot copies make a sorted range |
| SortBenchmark.ShellSort | helloworld/src/SortBenchmark.java:128-139 | the result is sorted and a permutation of the input |
| SortBenchmark.HeapSort | helloworld/src/SortBenchmark.java:142-151 | the result is sorted and a permutation of the input |
| SortBenchmark.BuildHeap | helloworld/src/SortBenchmark.java:144 | the first loop turns the array into a max-heap, keeping the multiset |
| SortBenchmark.ExtractMax | helloworld/src/SortBenchmark.java:145-150 | one turn of the second loop moves the heap's maximum behind the heap, keeping the invariant: heap in front, sorted largest values behind |
| SortBenchmark.RootIsMax | helloworld/src/SortBenchmark.java:142-151 | the root of a max-heap holds its largest value |
| SortBenchmark.Heapify | helloworld/src/SortBenchmark.java:153-163 | sifting position i down makes the first n positions a heap again, keeping the multiset and every position outside i..n |
| SortBenchmark.SiftStep | helloworld/src/SortBenchmark.java:157-161 | after swapping i with its larger child, the heap is ready to sift at that child |
| SortBenchmark.HeapShrink | helloworld/src/SortBenchmark.java:146-149 | swapping the root with the last heap position leaves a heap of one fewer element ready to sift at the root |
| SortBenchmark.CountingSort | helloworld/src/SortBenchmark.java:166-172 | on values in 0..maxValue the result is sorted and a permutation of the input |
| SortBenchmark.Count | helloworld/src/SortBenchmark.java:167-168 | count[v] is the number of occurrences of v for every v in 0..maxValue |
| SortBenchmark.BucketIndex | helloworld/src/SortBenchmark.java:181 | every value with −(maxValue + 1) < value × 10 and value ≤ maxValue goes to one of the ten buckets; under division truncated toward zero, every negative one goes to bucket 0 |
| SortBenchmark.BucketIndexMonotone | helloworld/src/SortBenchmark.java:181 | a larger value never goes to an earlier bucket |
| SortBenchmark.FlattenAdd | helloworld/src/SortBenchmark.java:182 | adding a value to one bucket adds it to the concatenated buckets |
| SortBenchmark.BucketSort | helloworld/src/SortBenchmark.java:175-190 | on every input whose values all have a bucket, small negatives included, the result is sorted and a permutation of the input |
| SortBenchmark.Distribute | helloworld/src/SortBenchmark.java:180-183 | the ten buckets hold exactly the input values, each in the bucket its index names |
| SortBenchmark.AppendBucket | helloworld/src/SortBenchmark.java:186-189 | appending a sorted bucket behind the earlier buckets' values keeps the result sorted |
| SortBenchmark.SortedUnique | helloworld/src/SortBenchmark.java:187 | two sorted permutations of each other are equal, so the library sort of a bucket and every sort here give the same result |
| SortBenchmark.JavaDiv | helloworld/src/SortBenchmark.java:202 | Java's integer division agrees with the Euclidean quotient on a non-negative dividend |
| SortBenchmark.JavaRem | helloworld/src/SortBenchmark.java:202 | Java's remainder lies in 0..d−1 for a non-negative dividend and in −(d−1)..0 for a negative one |
| SortBenchmark.JavaDivRem | helloworld/src/SortBenchmark.java:202 | quotient times divisor plus remainder is the dividend; with the remainder's sign this makes the quotient the one truncated toward zero |
| SortBenchmark.Digit | helloworld/src/SortBenchmark.java:202 | the digit a pass sorts by lies strictly between −10 and 10 and is the usual decimal digit for a non-negative value |
| SortBenchmark.Keys | helloworld/src/SortBenchmark.java:202-205 | the list of each element's digit |
| SortBenchmark.CountingSortByDigit | helloworld/src/SortBenchmark.java:198-210 | refused exactly when some digit is negative (the out-of-bounds index); otherwise the stable arrangement by digit, a permutation, which extends the order by the lower digits by one more digit |
| SortBenchmark.CountDigits | helloworld/src/SortBenchmark.java:201-202 | the number of elements with each digit, or refusal exactly when some digit is negative |
| SortBenchmark.BucketEnds | helloworld/src/SortBenchmark.java:203 | the prefix sums: count[d] is where the bucket of digit d ends |
| SortBenchmark.PlaceAll | helloworld/src/SortBenchmark.java:204-208 | placing from the last element to the first puts every bucket in its place in input order: the stable arrangement by digit |
| SortBenchmark.PlaceNext | helloworld/src/SortBenchmark.java:205-207 | one turn of the placing loop keeps its invariant |
| SortBenchmark.ByDigitPermutes | helloworld/src/SortBenchmark.java:198-210 | the arrangement by digit is a permutation of the input |
| SortBenchmark.Max | helloworld/src/SortBenchmark.java:194 | the maximum is an element and at least every element |
| SortBenchmark.RadixSort | helloworld/src/SortBenchmark.java:193-196 | an empty array is refused; every result is a permutation; every non-empty non-negative input comes out sorted; with a non-positive maximum no pass runs; with a maximum in 1..9 the result is the single digit pass, or the refusal when a digit is negative |
| SortBenchmark.NegativeOnePass | helloworld/src/SortBenchmark.java:193-205 | for [-10, -20, 5] the maximum is 5, Java's remainder gives both negatives the digit 0, and the one pass returns the unsorted input unchanged |
| SortBenchmark.NegativeUnsorted | helloworld/src/SortBenchmark.java:193-210 | radix sort of [-10, -20, 5] succeeds and returns [-10, -20, 5], which is not sorted |
| SortBenchmark.QuotientPositive | helloworld/src/SortBenchmark.java:195 | the loop test max / exp > 0 holds exactly when exp is at most max |
| SortBenchmark.RadixRound | helloworld/src/SortBenchmark.java:195 | one pass keeps the radix invariant, and never fails on non-negative input |
| SortBenchmark.BelowSorted | helloworld/src/SortBenchmark.java:193-196 | values all below exp and ordered modulo exp are sorted |
| BenchmarkRunner.Validate | Benchmark/src/BenchmarkRunner.java:115-120 | true exactly when the data is sorted |
| BenchmarkRunner.QuickSort | Benchmark/src/BenchmarkRunner.java:125-127 | the result is sorted and a permutation of the input |
| BenchmarkRunner.QuickSortHelper | Benchmark/src/BenchmarkRunner.java:129-135 | positions low..high end sorted, the multiset is kept and nothing outside changes |
| BenchmarkRunner.PivotSplit | Benchmark/src/BenchmarkRunner.java:131-133 | a Lomuto split is a three-way partition around the pivot's position |
| BenchmarkRunner.CompareSwap | Benchmark/src/BenchmarkRunner.java:139-141 | one compare-and-swap orders the two positions, keeps the pair's values and every other position |
| BenchmarkRunner.MedianOfThree | Benchmark/src/BenchmarkRunner.java:138-141 | the three compare-and-swaps only touch low, mid and high, permute their values and put a value no larger than mid's at high; when mid > low, low holds at most high's value |
| BenchmarkRunner.Partition | Benchmark/src/BenchmarkRunner.java:137-153 | the pivot lands at p in low..high, with values at most it before and values above it after, the multiset kept and nothing outside changed |
| BenchmarkRunner.LomutoStep | Benchmark/src/BenchmarkRunner.java:145-150 | one loop turn keeps the Lomuto invariant |
| BenchmarkRunner.LomutoDone | Benchmark/src/BenchmarkRunner.java:151-152 | the final swap puts the pivot between the two sides |
| BenchmarkRunner.MergeSort | Benchmark/src/BenchmarkRunner.java:158-160 | the result is sorted and a permutation of the input |
| BenchmarkRunner.MergeSortHelper | Benchmark/src/BenchmarkRunner.java:162-169 | positions left..right end sorted, the multiset is kept and nothing outside changes |
| BenchmarkRunner.Merge | Benchmark/src/BenchmarkRunner.java:171-186 | two adjacent sorted runs become one sorted run, keeping the multiset and everything outside |
| BenchmarkRunner.CopyRuns | Benchmark/src/BenchmarkRunner.java:172-178 | the copies L and R are the two runs, each sorted |
| BenchmarkRunner.HeapSort | Benchmark/src/BenchmarkRunner.java:191-214 | the result is sorted and a permutation of the input |
| BenchmarkRunner.KnuthGap | Benchmark/src/BenchmarkRunner.java:221-222 | each gap of the sequence 1, 4, 13, … is positive and one more than a multiple of 3 |
| BenchmarkRunner.KnuthGapDown | Benchmark/src/BenchmarkRunner.java:234 | dividing a gap of the sequence by 3 gives the previous gap |
| BenchmarkRunner.ShellSort | Benchmark/src/BenchmarkRunner.java:219-236 | the result is sorted and a permutation of the input |

## Left out

- Concurrency: the `synchronized` methods, the ATM2 interest thread, the ATM1 interest thread and the ATM-System year ticker. A tick or an interest run is one sequential call (`AtmService.ProcessYearPassed`, `Atm1Bank.ApplyInterestToAllUsers`, `Atm2Bank.ApplyInterestToAllUsers`).
- Persistence and file I/O: ATM1 `Bank.saveUsers` and `Bank.loadUsers`, and ATM2 `saveUsers` and the deserialisation inside `loadUsers`. The users read from the file are a parameter: `loaded` of `Atm1Bank.Construct` and of `Atm2Bank.LoadUsers`, empty when the file is missing or unreadable.
- Persistence and file I/O, continued: the student system's grade files, its directory listing and the sorting of files by `lastModified`. Only the suffix normalisation of that menu is modelled, as `Sis.NormalizeSuffix`.
- Persistence and file I/O, continued: the benchmark CSV output, and the `main` methods with their timing and random data.
- The user interfaces and menu loops: ConsoleAtm, the rest of AppFx, both `ATM.java` entry points and the student system's menus. The student system's input retry loops become a single failing input.
- Clocks: `DepositAccount`'s `createdAt` and `maturityDate` read the wall clock, and nothing else depends on them.
- Message text: `toString`, `String.format` and printed messages are left out. Each outcome keeps only success or failure, plus the number of years still needed for a deposit that is not yet mature.
- Null references: `requireNonNull` and the NullPointerExceptions it raises are not modelled. Strings are never null, except where the source tests for null; those inputs are `Option`s.
- Floating point: ATM1 `applyInterest` computes `Math.round(balance * rate)` on doubles. It is modelled on exact reals, with `Math.round` as the floor of x + 1/2. The ATM2 interest run likewise multiplies exact reals, and double rounding error is not modelled.
- Java `int` overflow: ATM1 balances and amounts are modelled without 32-bit wrap-around.
- Atm2User.FromInput: lower-cases ASCII letters only, where Java's `toLowerCase` covers all of Unicode. No other Unicode lower-case mapping produces 'm' or 'f', so the answer is the same.
- AtmService.Active: its own contract states only that the result holds unredeemed members of the list. Completeness, creation order and the absence of extra copies are the lemmas ActiveIsLive, ActivePrefix and ActiveComplete.
- SortBenchmark.CountingSort: requires every element to lie in 0..maxValue. Any other element makes the source throw ArrayIndexOutOfBoundsException, which is not modelled.
- SortBenchmark.BucketSort: requires every element to satisfy −(maxValue + 1) < element × 10 and element ≤ maxValue. It also requires `maxValue * 10` to fit in an `int`. Under these bounds the source's bucket index is in 0..9; a smaller negative element or a larger one makes the index go out of bounds and the source throw. A larger maxValue, where `num * bucketCount` can overflow, is not modelled. Neither is a negative maxValue with a non-empty input: the bounds above are then unsatisfiable, although the source's division by a negative `maxValue + 1` can still land some values in a bucket.
- SortBenchmark.RadixSort: does not model `exp *= 10` overflowing past 10^9 when the maximum is at least 10^9. Negative elements are modelled. A negative digit (for example -5 in the units) is the `None` of `CountingSortByDigit`, standing for the out-of-bounds exception. A negative input whose digits are all 0 or more, such as [-10, -20, 5], runs without failure and comes back as an unsorted permutation (`SortBenchmark.NegativeUnsorted`).
- SortBenchmark.CopyArray: its contract speaks of a fresh array, so it is stated on arrays rather than sequences.
- BenchmarkRunner heap sort: `heapSort` and `heapify` are line for line those of `SortBenchmark`, so `BenchmarkRunner.HeapSort` reuses `SortBenchmark.Heapify` and `SortBenchmark.BuildHeap`.
- Stability of the integer sorts: two equal `int`s cannot be told apart, so stability is not observable. It is stated only where it is visible: the ranking of students (`Sis.SortStable`) and the digit passes of radix sort (`SortBenchmark.CountingSortByDigit` arranges each digit's bucket in input order).
- `Collections.sort` and `List.sort` are modelled by a stable insertion sort. `SortBenchmark.SortedUnique` and `Sis.StableSortUnique` show that any sort with the same guarantees gives the same result.
- The student limit: `checkStudentCount`'s IllegalStateException is not caught by the menu loop, so the program ends. Here it is a `Failure` with the system unchanged.
- `111/src/Person.java` repeats the rules of the person record behind a Scanner loop and is not part of this model. The same holds for ATM2's `BankAccount`, the SIS `GradeRecord` and the JUnit stand-ins.

## Findings

| source | as written | input that shows it | evidently intended | confidence | as-written member | corrected member |
|---|---|---|---|---|---|---|
| ATM-System/src/main/java/org/example/AtmService.java:44-55 | the principal is withdrawn before `DepositAccount`'s constructor refuses an unsupported term, and the refusal does not refund it | cash 100.00, `createTermDeposit(100.00, 5)` | an unsupported term is refused with the balance unchanged | not executed | AtmService.CreateTermDepositAsWritten, AtmService.AsWrittenCounterexample | AtmService.CreateTermDeposit |
| ATM-System/src/main/java/org/example/AtmService.java:62-67 | `redeemTermDeposit` indexes the full deposit list, redeemed entries included, while both user interfaces number only the active list | deposits [redeemed, mature]: redeeming shown number 0 is refused as already redeemed | the index is a position in the active list | not executed | AtmService.RedeemTermDeposit, AtmService.ShownIndexMismatch | AtmService.RedeemShown |
| ATM2/src/Bank.java:129-137 | `isBlank()` is tested before `trim()`, and `trim` also strips control characters such as U+0001 that `isBlank` does not count as white space | `registerUser("\u0001", …)` files a user under the empty username | a username that trims to nothing is refused | not executed | Atm2Bank.RegisterUserAsWritten, Atm2Bank.ControlCharacterRegistersEmptyName | Atm2Bank.RegisterUser |
