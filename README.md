# The reverse Wurzelschnecke generator, modelled in Dafny

The program computes an endless series of right triangles. Triangle 1 is a
fixed base triangle. Every later triangle n hangs off the outside right point
of triangle n - 1: it has an outside leg of length L and an inside leg of
length sqrt(n), or sqrt(h(n)^2 - L^2) when a custom hypotenuse function h is
configured. It is turned by the rotation accumulated so far plus atan(L /
inside leg). `create_data` drives the recurrence and stores the triangles in
a CSV file:

- It resumes after the last stored row, or starts at triangle 1 with a new
  file.
- It keeps only the triangles whose number is a multiple of `save_every_n`.
- A non-negative amount computes that many triangles and writes the kept rows
  in one batch at the end.
- A negative amount computes triangles forever and appends each kept
  triangle to the file as soon as it is computed.

The model has five modules:

- `Numeric`: cos, sin, sqrt and atan as fields of a `Backend` value. Each
  property of these functions that a proof uses is a predicate the lemma
  requires.
- `Triangles` (triangle.py): `RotatePoint`, `InsideLeg` and
  `CalculateTriangle`, which returns `Err(NotRightTriangle(n))` where the
  source raises `NotRightTriangleError`. Also the `Triangle` value and the
  column table `TriangleData`, a class whose map of columns
  `SaveTriangleData` grows in place.
- `Store` (the CSV helpers of utils.py): the file as an abstract value, an
  optional header plus rows. A `DataFile` object reads the last row and
  writes a batch, creating the file or appending to it.
- `Series`: the generation loop as a function. `Run(next, c, k)` is the first
  k iterations of a recurrence `next` from the loop variables `c`. `Kept`
  selects the sampled triangles, and `ChooseSeed` picks the starting loop
  variables. The structural lemmas hold for any recurrence that labels its
  triangle with the number it was asked for; the contract of `Next` says
  that triangle.py's recurrence does.
- `Generation` (main.py): `CreateData` and its two loops as methods with
  `for` loops. The loops take the recurrence as a parameter, and `CreateData`
  passes them `Next`. They are proved against `Run`, `Kept` and `Written`.

The headline results:

- Consecutive triangles share a vertex (`RunContinuity`).
- The rotation accumulates (`RunRotation`) and strictly increases
  (`RunRotationIncreases`).
- Every triangle is a right triangle (`TriangleIsRight`).
- The stored rows are exactly the sampled triangles, in order (`CreateData`,
  `SavedNumbers`).
- Stopping and restarting loses and repeats nothing: two sessions store the
  same file as one longer session (`TwoSessionsMatchOne`).
- A session keeps the file well formed, with triangle numbers strictly
  increasing down the file (`SessionKeepsFileWellFormed`).

Three behaviours of the code that the model follows as written:

- The code never checks the header of an existing file before resuming or
  appending. The model has no schema check either.
- The code treats a last line as "no data" only when parsing it raises
  SyntaxError (utils.py:53-58), as the header line does. A data row that
  fails that way makes the session create a new file, and creating
  overwrites the old file (utils.py:25), so every stored row is lost. Other
  parse failures are not caught and abort `create_data`. The model reads rows
  as numbers and covers neither path, see "Left out".
- `save_every_n` is any non-zero integer. A negative value samples like its
  absolute value: Python's floor remainder (`FloorMod`) and Dafny's Euclidean
  remainder are both zero exactly on the multiples.

## Model

| member | source | states |
|---|---|---|
| Triangles.RotatePoint | triangle.py:42-61 | the rotated point's squared distance to the origin is the original one scaled by cos^2 + sin^2 of the angle, and the origin itself never moves |
| Triangles.RotateByZero | triangle.py:55-61 | with cos 0 = 1 and sin 0 = 0, rotating by angle 0 returns the point unchanged |
| Triangles.RotatePreservesDistance | triangle.py:58-59 | with cos^2 + sin^2 = 1, a rotation keeps the distance to the origin |
| Triangles.RotateInverse | triangle.py:58-59 | with cos even, sin odd and cos^2 + sin^2 = 1, rotating back by the opposite angle returns the original point |
| Triangles.InsideLeg | triangle.py:72-87 | NotRightTriangle(n) exactly when a custom hypotenuse is configured and h(n) <= L; otherwise the leg exists and is positive |
| Triangles.InsideLegSquared | triangle.py:72-87 | with a true square root, the leg squared is n by default and h(n)^2 - L^2 with a custom hypotenuse |
| Numeric.SquareGap | triangle.py:78-81 | h^2 - L^2 is positive when h > L >= 0, so its square root is defined |
| Numeric.SqrtOfOne | triangle.py:84-87 | a true square root gives sqrt(1) = 1 |
| Triangles.CalculateTriangle | triangle.py:63-115 | the error NotRightTriangle(n) is returned exactly when h(n) <= L under a custom hypotenuse, also for n = 1; a returned triangle carries the number it was asked for |
| Triangles.FirstTriangle | triangle.py:89-92 | triangle 1 is (-L, leg), (0, leg), (0, 0), ignores the previous point and keeps the incoming rotation |
| Triangles.FirstTriangleDefault | triangle.py:84-92 | without a custom hypotenuse and with a true square root, triangle 1 is (-L, 1), (0, 1), (0, 0) |
| Triangles.NextTriangle | triangle.py:93-115 | for n > 1 the outside left point is the previous outside right point and the rotation is the incoming one plus atan(L / inside leg) |
| Triangles.TriangleIsRight | triangle.py:89-115 | every computed triangle has an outside leg of length L, an inside leg of length InsideLeg, and a hypotenuse whose square is the sum of the legs' squares |
| Triangles.RotatedLegs | triangle.py:94-112 | the two rotated points of a later triangle stay L and sqrt(L^2 + leg^2) from the pivot and leg apart |
| Triangles.Triangle.SaveTriangleData | triangle.py:29-40 | every one of the eight columns grows by exactly the triangle's value for that header, in header order; no column is added or removed; the table read row by row gains exactly the triangle's row |
| Triangles.Triangle.Fields | triangle.py:31-40 | a triangle's row has the eight columns' values, from which its points, number and rotation read back unchanged |
| Triangles.TriangleData.AppendToColumn | triangle.py:31 | one value is appended to the column of one header and every other column is unchanged |
| Triangles.TableAppend | triangle.py:29-40 | growing every column by the matching value of a row adds that row last and changes no earlier row |
| Triangles.TriangleData.constructor | main.py:65 | the table starts with one empty column per header, so it has no rows |
| Store.Written | utils.py:20-30 | creating gives the header and the batch only; appending keeps the header and every existing row and adds the batch after them, without a header |
| Store.LastRow | utils.py:38-60 | no last row exactly when there is no file or the file holds only a header; otherwise the last data row |
| Store.DataFile.constructor | utils.py:40-43 | the data file holds exactly the given contents, None standing for a file that does not exist |
| Store.DataFile.ReadLastTriangle | utils.py:38-60 | returns the last data row of the file, or None |
| Store.DataFile.Write | utils.py:20-30 | the file becomes Written of the old file, the batch and the create flag |
| Store.AppendKeepsWellFormed | utils.py:27-29 | appending rows that come after the last stored number keeps the file's numbers strictly increasing |
| Series.ChooseSeed | main.py:38-62 | with a last row: the next number is past the stored one and the file is appended to; without one: triangle 1, rotation 0, no previous point and a new file; the cursor is always one calculate_triangle accepts |
| Series.ResumeFromAnyRow | main.py:40-52 | every well-formed stored row is the row of the triangle it describes, and a session started on it resumes at that triangle's number + 1, rotation and outside right point, in append mode |
| Series.ResumeFromRow | main.py:40-52 | the row a triangle stores resumes exactly at that triangle's number + 1, rotation and outside right point, in append mode |
| Series.Next | main.py:117-119 | the recurrence of the loop is calculate_triangle on the loop variables, and every triangle it returns carries the number it was asked for |
| Series.NextOutcome | triangle.py:72-76 | an iteration fails exactly when a custom hypotenuse has h(n) <= L, and its error names triangle n |
| Series.Step | main.py:116-126 | a stopped loop stays stopped; otherwise an iteration keeps every triangle computed so far and adds exactly one more, unless it stops with an error |
| Series.Advance | main.py:121-126 | after a triangle the number moves one past it, and from a number >= 0 the loop variables hold a previous point, as calculate_triangle needs |
| Series.Resumed | main.py:43-48 | resuming from a stored triangle gives exactly the loop variables the loop holds right after computing it, ready for calculate_triangle |
| Series.StepOfNext | main.py:117-126 | one iteration appends the triangle calculate_triangle returns and moves the number, rotation and previous point past it, or stops with its error |
| Series.Run | main.py:116 | a run of k iterations computes exactly k triangles unless an error stops it, and the next number is the start plus the number computed |
| Series.RunNumbers | main.py:110-116 | triangle i of a run is number start + i: the numbers start .. start + amount - 1 in increasing order |
| Series.RunCursor | main.py:122-126 | after a run the loop variables hold the last triangle's rotation and outside right point, or the seed's when nothing was computed |
| Series.RunReady | main.py:117-119 | calculate_triangle is only ever called on a number >= 1 with a previous point for every number after 1 |
| Series.RunStopsAtError | main.py:117-119 | once NotRightTriangle is raised no further triangle is computed |
| Series.RunSplit | main.py:111-116 | j iterations followed by k more from where they ended are j + k iterations |
| Series.RunPrefix | main.py:116-119 | the first m triangles of a run are the same in every longer run |
| Series.RunContinuity | main.py:122-126 | every triangle's outside left point is the previous triangle's outside right point, and the first one starts at the seed point unless it is triangle 1 |
| Series.TriangleTurn | triangle.py:89-106 | triangle n turns the series by nothing when n = 1 and by atan(L / inside leg) otherwise |
| Series.RunRotation | main.py:122-123 | triangle i of a run has the seed rotation plus the turns of every triangle up to it, and the loop carries that sum on |
| Series.Increment | triangle.py:102-106 | with L > 0 and atan positive on positive numbers, the turn of triangle m is never negative, and it is positive exactly when m > 1 and the triangle exists |
| Series.Gain | triangle.py:102-106 | with L > 0 and atan positive on positive numbers, the turns of a stretch of triangles add up to a non-negative amount |
| Series.RunRotationIncreases | triangle.py:102-106 | with L > 0 and atan positive on positive numbers, the rotation strictly increases along a run |
| Series.FloorMod | main.py:129 | Python's remainder has the sign of the divisor and lies strictly inside it, n minus it is a multiple of the divisor, and it is 0 exactly on the multiples |
| Series.Sampling | main.py:129 | a triangle number passes the sampling test exactly when its Python remainder by save_every_n is 0 |
| Series.Kept | main.py:129-132 | sampling never yields more triangles than were computed |
| Series.KeptAppend | main.py:129-132 | a computed triangle joins the kept ones exactly when its number passes the sampling test |
| Series.KeptExactly | main.py:129-132 | a triangle is kept if and only if it was computed and its number is a multiple of save_every_n |
| Series.KeptInOrder | main.py:116-132 | kept triangles stay in increasing number order |
| Series.KeptConcat | main.py:129-132 | sampling two pieces one after the other samples each piece |
| Series.SavedNumbers | main.py:110-132 | the stored numbers are exactly the multiples of save_every_n between the start and the last computed number, each once and in increasing order |
| Series.KeptFrom | main.py:110-132 | every kept triangle carries a number from the run's start on, and the kept numbers strictly increase |
| Series.LastKeptAtIsLast | main.py:129-132 | the run up to the last kept triangle ends with it and keeps everything the whole run keeps |
| Series.LastKept | main.py:43-44 | the last stored triangle's number is its place in the run counted from the start |
| Series.ResumeAfter | main.py:40-52 | after triangle m the loop variables are those a resume from triangle m builds, and continuing from there continues the same run |
| Series.ResumeAt | main.py:40-52 | resuming after any computed triangle m and running k iterations gives triangles m + 1 .. m + k of the single run |
| Series.ResumeAtError | main.py:117-119 | the resumed run stops on an error exactly when the single run does |
| Series.ResumeMatchesOneRun | main.py:40-52 | the kept triangles of a run, followed by those kept after resuming from the last kept one, are what one run of the same total length keeps |
| Series.RowsOf | main.py:138-141 | row i of a batch is triangle i's eight values |
| Series.RowsOfConcat | main.py:138-141 | the rows of two pieces are the rows of each piece one after the other |
| Series.CreateThenAppend | utils.py:23-29 | creating a file with some rows and appending more gives the file created with all of them |
| Series.ResumeFromCreated | main.py:38-52 | a file created with some triangles ends with the last one's row, which is well formed, and a session started on it resumes right after that triangle in append mode |
| Series.TwoSessionsMatchOne | main.py:23-141 | a session on a new file that kept at least one row, followed by a session resumed from that row, leaves exactly the file one longer session would leave, and fails exactly when it would; the files are those the unbounded branch leaves, and those the bounded branch leaves when no session fails |
| Series.RowsWellFormed | main.py:138-141 | the rows of triangles numbered from 1 in increasing order make a well-formed file |
| Series.SessionKeepsFileWellFormed | main.py:38-62 | creating or appending, a session leaves every stored row well formed and the stored numbers strictly increasing, so no triangle is stored twice |
| Generation.CreateData | main.py:23-141 | the error is the run's error; in the unbounded branch, and in the bounded branch when no error occurs, the file becomes the created or appended file with exactly the rows of the sampled triangles of the run from the chosen seed; a bounded run that fails leaves the file untouched |
| Generation.CalculateRange | main.py:109-132 | the bounded loop returns the run's error and, without one, leaves in the table exactly the rows of the sampled triangles of the run |
| Generation.CalculateForever | main.py:71-108 | the unbounded loop, interrupted after some iterations, returns the run's error and has appended exactly the rows of the sampled triangles computed so far, one at a time, to the existing file |
| Generation.AppendTriangle | main.py:96-106 | a saved triangle is appended to the file as a batch holding only its own row |
| Generation.SavedRowsAppend | main.py:129-132 | the saved rows grow by the triangle's row exactly when its number passes the sampling test, and are unchanged otherwise |
| Generation.RunOneMore | main.py:116-126 | one more iteration of a run that has not stopped applies the recurrence to the current loop variables: an error ends every longer run there, and a triangle is appended while the loop variables move past it |
| Generation.WrittenOneMore | main.py:96-106 | one more computed triangle adds its row after the file's rows exactly when its number passes the sampling test, and leaves the file unchanged otherwise |
| Numeric.SqrtSoundIsPositive | triangle.py:84-87 | a true square root is positive on positive numbers, so the division by the inside leg is defined |

## Left out

- Floating point and symbolic arithmetic: both backends of the source are one
  backend over the reals. cos, sin, sqrt and atan are parameters, and a lemma
  requires only the properties it uses. Rounding is not modelled.
- Generation.CalculateForever: the `while True` loop is modelled as its first
  `iterations` iterations, a `for` loop. Termination by interruption is not
  modelled.
- Generation.CreateData: requires `save_every_n` to be non-zero. For 0 the
  source raises ZeroDivisionError only at the remainder (main.py:96 and 129),
  after a triangle has been computed. A bounded run of amount 0 therefore
  writes its file normally. An unbounded run on a new file has already
  created the header-only file (main.py:75-78) when it raises. A first
  triangle that fails raises NotRightTriangleError before the remainder is
  reached. None of these paths is modelled.
- Generation.CreateData: requires the last stored row to hold eight values
  with a whole triangle number of at least 1. The model reads rows as numbers,
  not text. A last row whose parsing raises SyntaxError is taken as "no
  data" (utils.py:53-58): the session then creates a new file, which
  overwrites the old one (utils.py:25) and loses every stored row. Other
  parse failures, such as a row with fewer than eight fields or with
  unbalanced brackets, propagate and abort `create_data`. A fractional or
  non-positive number makes the source compute a non-integer or failing
  series. None of these paths is modelled.
- Triangles.ValidConfig: a custom hypotenuse with a negative outside leg
  length is excluded. There the source's sqrt may receive a negative number
  and raise ValueError.
- Store.DataFile: the CSV text format and its round trip through
  pandas, tailer and sympy are assumed exact. A zero-byte file, which makes
  pandas raise, is not modelled. Neither is the header of an existing file,
  which the source never checks.
- The prompts of `get_input`, the progress messages and the DataFrame
  construction are left out. So are `main()` and all of plot.py.
- Series.Next: the recurrence returns an error for a cursor calculate_triangle
  cannot be called on. RunReady shows such a cursor never occurs in a run.
- Concurrent sessions on one file are not modelled.
