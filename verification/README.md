# Systems-programming coursework, modelled in Dafny

This project models the computational core of five course assignments:

- **Fixed-point numbers** (`csf_assign01`). A `fixpoint_t` holds a 32-bit whole part, a 32-bit fraction and a sign flag. The model covers:
  - the three magnitude helpers;
  - init, is_negative, negate, add, sub, mul and compare;
  - the hexadecimal formatter and parser.
- **Image processing** (`csf_assign02`). A pixel is a packed RGBA `uint32_t`. The model covers:
  - the pixel getters and `make_pixel`;
  - row-major indexing;
  - the centred-ellipse test;
  - the complement, transpose, ellipse and emboss transformations.
- **Cache-simulator argument validation** (`csf_assign03`). The model covers `isPowerOfTwo`, each check on the six arguments, and the exit status.
- **Parallel quicksort** (`csf_assign04`). The model covers:
  - the comparator and swap;
  - Lomuto partition around the middle element;
  - the recursive quicksort, with each child step run in sequence.
- **Chat server and clients** (`csf_assign05`). The model covers:
  - the server's room registry (`find_or_create_room`) and the login dispatch;
  - the sender and receiver connection loops;
  - room membership and broadcast;
  - the per-user message queue;
  - the sender client's command interpreter and main loop;
  - the receiver client's handshake, `room:sender:text` payload split and receive loop.

## How the model is built

- Machine integers are `int` subset types: `u32` and `u64` in `MachineInts`, `byte` in `Pixel`. Every wrap-around is written out modulo 2^32 or 2^64.
- Arrays and images are `seq`s. The C procedures that write through pointers become functions or methods that return the new value.
- A chat `Message` is a `(tag, data)` pair. A receive on a connection is an `Incoming`:
  - a message,
  - a closed connection,
  - or a malformed frame, with the text of the exception.
- The server's shared state is an immutable `State`:
  - a registry from room name to `Room`;
  - a map from user identity to `Queue`.
- Each `Room` holds a set of user identities.

## Model

| member | source | states |
|---|---|---|
| Fixpoint.CmpMagnitude | csf_assign01/csf_assign01/fixpoint.c:18-27 | The whole-then-fraction comparison is the sign of the difference of the 64-bit magnitudes. |
| Fixpoint.AddMagnitude | csf_assign01/csf_assign01/fixpoint.c:33-49 | The two carry-chained 32-bit adds give the magnitude sum modulo 2^64. The overflow flag is raised exactly when the true sum reaches 2^64. |
| Fixpoint.SubMagnitude | csf_assign01/csf_assign01/fixpoint.c:55-71 | When the first magnitude is at least the second, the borrow arithmetic yields exactly their difference. |
| Fixpoint.Init | csf_assign01/csf_assign01/fixpoint.c:82-91 | Both parts are stored as given. The sign is kept only for a non-zero value, so zero is never negative. |
| Fixpoint.ZeroNeverNegative | csf_assign01/csf_assign01/fixpoint.c:108-122 | is_negative reports no zero as negative, whatever its sign flag. Init and negate never produce a negative zero. |
| Fixpoint.Negate | csf_assign01/csf_assign01/fixpoint.c:115-122 | The magnitude is unchanged. The sign flips for non-zero values, and zero becomes non-negative. |
| Fixpoint.NegateInvolution | csf_assign01/csf_assign01/fixpoint.c:115-122 | Negating a canonical value twice gives it back. Negation maps the denoted rational v to -v. |
| Fixpoint.Add | csf_assign01/csf_assign01/fixpoint.c:128-152 | For operands with the same sign flag: the magnitudes are added, the common sign is kept, and overflow is flagged iff the sum reaches 2^64. For opposite signs: the smaller magnitude is subtracted from the larger, and the result takes the sign of the larger. Exact cancellation gives +0. Underflow is never flagged. |
| Fixpoint.AddExact | csf_assign01/csf_assign01/fixpoint.c:128-152 | Without overflow, the sum denotes exactly the sum of the operands' values. |
| Fixpoint.AddOverflowWraps | csf_assign01/csf_assign01/fixpoint.c:134-139 | Overflow happens only for equal signs. The magnitude is the true sum minus 2^64 and keeps the common sign. |
| Fixpoint.AddCancellation | csf_assign01/csf_assign01/fixpoint.c:140-147 | x + (-x) is canonical zero with no flag raised. |
| Fixpoint.IsNegative | csf_assign01/csf_assign01/fixpoint.c:108-112 | A value counts as negative exactly when its flag is set and its magnitude is non-zero, so zero is never negative. |
| Fixpoint.Sub | csf_assign01/csf_assign01/fixpoint.c:158-164 | Subtraction adds the negated right operand. It never flags underflow, and without overflow it denotes exactly the difference of the operands' values. |
| FixpointMul.Mul | csf_assign01/csf_assign01/fixpoint.c:173-229 | The four 32x32 partial products and their carries give bits 32..95 of the 128-bit product of magnitudes. Overflow is flagged iff the product reaches 2^96. Underflow is flagged iff its low 32 bits are non-zero. The sign is the XOR of the signs, and is non-negative when an operand is zero. |
| FixpointMul.MulWordsCorrect | csf_assign01/csf_assign01/fixpoint.c:181-214 | The word-level accumulation, including the dropped carry of the two cross products, agrees with the exact product's middle bits and overflow bits. |
| FixpointMul.MulByOne | csf_assign01/csf_assign01/fixpoint.c:173-229 | Multiplying a canonical value by 1.0 returns it with no flag raised. |
| Fixpoint.Compare | csf_assign01/csf_assign01/fixpoint.c:238-249 | compare returns -1, 0 or 1: the sign of the difference of the denoted values. Zero counts as non-negative whatever its flag. |
| Fixpoint.CompareAntisymmetric | csf_assign01/csf_assign01/fixpoint.c:238-249 | compare(l, r) == -compare(r, l). It is 0 exactly when the values are equal. |
| FixpointHex.FormatHex | csf_assign01/csf_assign01/fixpoint.c:258-301 | The output starts with '-' exactly for a negative value. |
| FixpointHex.FormatShape | csf_assign01/csf_assign01/fixpoint.c:264-296 | The output is an optional sign, then whole digits with no leading zero (just "0" for zero), then '.', then 1 to 8 lower-case fraction digits with no trailing zero other than a lone "0". |
| FixpointHex.DigitsDenote | csf_assign01/csf_assign01/fixpoint.c:271-291 | The whole digits read back as the whole part. The fraction digits, padded right to eight, read back as the fraction. |
| FixpointHex.TrimZeros | csf_assign01/csf_assign01/fixpoint.c:289-291 | The trimmed fraction is a non-empty prefix of the 8-digit buffer. It ends in a non-zero digit unless it is a lone digit, and only zeros were dropped. |
| FixpointHex.ParseWellFormed | csf_assign01/csf_assign01/fixpoint.c:309-366 | An optional '-', 1-8 hex digits of either case, '.', and 1-8 hex digits parse to the value those digits denote. The fraction is left-aligned in 32 bits. |
| FixpointHex.ParseAcceptsExactly | csf_assign01/csf_assign01/fixpoint.c:309-366 | On a string without NUL characters, parse_hex succeeds iff the string has exactly that shape. Empty strings, lone '-', missing digits, a ninth digit, stray characters and a missing '.' are all rejected. |
| FixpointHex.ParseHex | csf_assign01/csf_assign01/fixpoint.c:309-366 | A successful parse yields a canonical value, with no negative zero. |
| FixpointHex.ParseFormat | csf_assign01/csf_assign01/fixpoint.c:258-366 | Round trip: parsing the formatted string gives back the value normalised by init. A canonical value comes back unchanged. |
| Pixel.GetR | csf_assign02/c_imgproc_fns.c:10-12 | The red component is the top byte: the pixel lies between r * 2^24 and (r + 1) * 2^24. |
| Pixel.GetG | csf_assign02/c_imgproc_fns.c:14-16 | The green component is the second byte: below 2^24 the pixel lies between g * 2^16 and (g + 1) * 2^16. |
| Pixel.GetB | csf_assign02/c_imgproc_fns.c:18-20 | The blue component is the third byte: below 2^16 the pixel lies between b * 2^8 and (b + 1) * 2^8. |
| Pixel.GetA | csf_assign02/c_imgproc_fns.c:22-24 | The alpha component is the low byte: the pixel minus it is a multiple of 256. |
| Pixel.MakePixel | csf_assign02/c_imgproc_fns.c:26-28 | Packing four byte-sized components stores each in its own field. |
| Pixel.PixelOfComponents | csf_assign02/c_imgproc_fns.c:10-28 | Repacking a pixel's four extracted components gives back the pixel. |
| Pixel.PixelExtensional | csf_assign02/c_imgproc_fns.c:10-24 | Two pixels with equal components are equal. |
| Pixel.ComplementPixel | csf_assign02/c_imgproc_fns.c:81-96 | Each colour component becomes 255 minus itself, and alpha is kept. |
| Pixel.ComplementTwice | csf_assign02/c_imgproc_fns.c:81-96 | Complementing twice is the identity. |
| ImgProc.ComputeIndex | csf_assign02/c_imgproc_fns.c:30-35 | An in-bounds (row, col) maps to a valid data index, and the row and column are recovered from it. |
| ImgProc.IdxInjective | csf_assign02/c_imgproc_fns.c:30-35 | Distinct in-bounds positions have distinct indices. |
| ImgProc.InEllipse | csf_assign02/c_imgproc_fns.c:38-71 | With a zero horizontal semi-axis a pixel is inside exactly when it is on the centre column and within the vertical semi-axis of the centre; symmetrically for a zero vertical semi-axis. |
| ImgProc.EllipseAgainstTrue | csf_assign02/c_imgproc_fns.c:66-70 | Compared with the true ellipse x^2 b^2 + y^2 a^2 <= a^2 b^2: every point of it passes the scaled, floored test, and every point that passes is within a factor 1.0002 of it. |
| ImgProc.EllipseCentre | csf_assign02/c_imgproc_fns.c:38-71 | The centre pixel (h/2, w/2) is inside the ellipse. |
| ImgProc.EllipseAxisEnds | csf_assign02/c_imgproc_fns.c:38-71 | The ends of both semi-axes are inside. |
| ImgProc.EllipseCornerOutside | csf_assign02/c_imgproc_fns.c:66-70 | For non-degenerate semi-axes the corner (0, 0) is outside. |
| ImgProc.EllipseDegenerate | csf_assign02/c_imgproc_fns.c:49-64 | A zero semi-axis confines the ellipse to the centre line along that axis. |
| ImgProc.EllipseMirror | csf_assign02/c_imgproc_fns.c:38-71 | Membership is symmetric under reflection through the centre in each axis. |
| ImgProc.EllipseShrink | csf_assign02/c_imgproc_fns.c:38-71 | Moving a member pixel closer to the centre in both coordinates keeps it inside, so the region is star-shaped. |
| ImgProc.Complement | csf_assign02/c_imgproc_fns.c:81-96 | The output has the same shape as the input, and every pixel is the complement of the input pixel at the same index. |
| ImgProc.ComplementOfTwice | csf_assign02/c_imgproc_fns.c:81-96 | Applying the complement transformation twice restores the image data. |
| ImgProc.Transpose | csf_assign02/c_imgproc_fns.c:112-129 | A non-square input returns 0 and leaves the output untouched. A square input returns 1, and output(r, c) = input(c, r). |
| ImgProc.TransposeOfTwice | csf_assign02/c_imgproc_fns.c:112-129 | Transposing twice restores the image. |
| ImgProc.Ellipse | csf_assign02/c_imgproc_fns.c:150-167 | Pixels inside the ellipse are copied from the input. Pixels outside keep whatever the output image already held; the code does not write them. |
| ImgProc.EmbossPixel | csf_assign02/c_imgproc_fns.c:218-249 | The grey level is 128 plus the largest-magnitude component difference, ties going to red, then green, then blue. It is clamped to 0..255 in all three colour fields, and the alpha is kept. |
| ImgProc.EmbossFlat | csf_assign02/c_imgproc_fns.c:218-249 | A pixel equal in colour to its upper-left neighbour becomes mid-grey. |
| ImgProc.Emboss | csf_assign02/c_imgproc_fns.c:199-255 | The top row and left column become mid-grey (128,128,128) keeping alpha. Every other pixel is embossed against its upper-left neighbour. |
| CacheConfig.PowerOfTwoIff | csf_assign03/main.cpp:8-10 | `x && !(x & (x-1))` holds exactly for the powers of two. |
| CacheConfig.ProblemsReported | csf_assign03/main.cpp:40-69 | Each error message is printed exactly when its own check fails, independently of the others. |
| CacheConfig.ExitStatusZeroIff | csf_assign03/main.cpp:24-74 | The exit status is 0 exactly with six arguments whose three sizes are powers of two, with at least 4 bytes per block, known policies, and not no-write-allocate with write-back. Otherwise it is 1. |
| ParSort.Compare | csf_assign04/parsort.c:68-72 | The comparator returns -1, 0 or 1 exactly when left is less than, equal to or greater than right. |
| ParSort.Swap | csf_assign04/parsort.c:75-79 | The two positions exchange values and every other element is unchanged. |
| ParSort.PartitionScan | csf_assign04/parsort.c:92-99 | The scan permutes the range, keeps the pivot parked last, and splits the rest into a prefix below the pivot and a suffix at or above it. |
| ParSort.Partition | csf_assign04/parsort.c:82-103 | The range is permuted around the element at its midpoint, which lands at the returned index. Everything before it is smaller and everything after is not. This is the corrected version of the code. |
| ParSort.ScanAsWritten | csf_assign04/parsort.c:92-99 | The unsigned-index scan either finishes with a permutation of the array, or stops at a read whose index lies past the array. |
| ParSort.PartitionAsWritten | csf_assign04/parsort.c:82-103 | Partition as written either finishes with a permutation and an index inside the array, or reports an out-of-bounds read. |
| ParSort.ScanAsWrittenAway | csf_assign04/parsort.c:92-99 | With start at least 1 the unsigned scan never wraps. It finishes with [start, index) below the pivot, [index, end - 1) at least the pivot, and the range permuted. |
| ParSort.PartitionAsWrittenWraps | csf_assign04/parsort.c:93-97 | As written, with start 0 the unsigned right index wraps below 0 to 2^64-1 and the scan reads out of bounds. |
| ParSort.PartitionAsWrittenAwayFromZero | csf_assign04/parsort.c:82-103 | For every range with start at least 1, the as-written partition finishes. It permutes [start, end) only, puts the middle element at the returned index, and leaves smaller values before it and the rest after it. |
| ParSort.Quicksort | csf_assign04/parsort.c:106-155 | The range ends up sorted and a permutation of the original range. Elements outside it are unchanged, and ranges shorter than 2 are left alone. |
| ParSort.SortRange | csf_assign04/parsort.c:106-116 | The fallback that sorts a range below the threshold yields a sorted permutation of that range. |
| MessageQueue.Dequeue | csf_assign05/message_queue.cpp:30-50 | On a consistent queue, the result is null exactly when it is empty, and the queue is then unchanged. Otherwise the front is removed and returned, and consistency is kept. |
| MessageQueue.Enqueue | csf_assign05/message_queue.cpp:19-28 | The message is appended at the back and the queue stays consistent. |
| MessageQueue.FifoOrder | csf_assign05/message_queue.cpp:19-50 | Draining after enqueuing a sequence yields the old contents followed by that sequence, in order. |
| MessageQueue.EnqueueKeepsFront | csf_assign05/message_queue.cpp:19-50 | Enqueuing onto a non-empty queue does not change what is dequeued next. |
| ChatRoom.AddMember | csf_assign05/room.cpp:18-22 | Set insertion: exactly the old members plus u, and no change if u was a member. |
| ChatRoom.RemoveMember | csf_assign05/room.cpp:24-28 | Set erasure: exactly the old members minus u, and no change if u was absent. |
| ChatRoom.Payload | csf_assign05/room.cpp:31-32 | The payload is the room name, ':', the sender, ':', the text, each at its offset. |
| ChatRoom.Broadcast | csf_assign05/room.cpp:30-41 | Every member's queue gets the delivery appended. Every other queue and the set of queues are unchanged, and consistency is kept. |
| ChatRoom.BroadcastAddsOnePerMember | csf_assign05/room.cpp:36-40 | Over any list of users, the total of pending messages grows by one per member listed. |
| ChatServer.FindOrCreate | csf_assign05/server.cpp:214-227 | An existing name returns its room and leaves the registry alone. A new name is filed with a new empty room. No other room changes. |
| ChatServer.FindOrCreateStable | csf_assign05/server.cpp:214-227 | A second lookup of the same name returns the same room and adds nothing. |
| ChatServer.Login | csf_assign05/server.cpp:136-161 | slogin leads to a sender and rlogin to a receiver, each with OK and the username. A failed receive replies "Invalid login", a malformed frame replies its error, and any other tag replies "Expected slogin or rlogin". |
| ChatServer.SenderHandle | csf_assign05/server.cpp:36-76 | One request in the sender loop. JOIN finds or creates the room and replies OK. SENDALL outside a room replies ERR; inside a room it broadcasts and replies OK. LEAVE outside a room replies ERR "Not in a room"; inside one it clears the room and replies OK. QUIT replies OK and ends the loop. Other tags reply ERR "Invalid command". A failed receive ends the loop silently, and a malformed frame replies its error and continues. |
| ChatServer.SenderSession | csf_assign05/server.cpp:30-78 | A sender session keeps the server state consistent, never removes a room, and writes at most one reply per request. |
| ChatServer.SenderKeepsMembership | csf_assign05/server.cpp:30-78 | A sender never changes any room's membership. |
| ChatServer.SenderRepliesOncePerRequest | csf_assign05/server.cpp:30-78 | Until the connection closes or QUIT arrives, every request gets exactly one reply. |
| ChatServer.ReceiverJoin | csf_assign05/server.cpp:82-100 | The receiver joins iff its first message is JOIN. It is then the only new user, with an empty queue, a member of exactly the named room, and is told OK. Otherwise it is refused with "Expected join" or the frame's error. |
| ChatServer.ReceiverDeliver | csf_assign05/server.cpp:103-121 | An empty queue changes nothing. Otherwise the front is popped and sent. If the send fails, the user leaves the room and its queue is discarded. No other user or room is affected. |
| ChatServer.ReceiverLoop | csf_assign05/server.cpp:103-121 | The loop keeps the state consistent. It ends exactly when the user's queue has been discarded, and while it runs the user stays only in its room. |
| ChatServer.ReceiverDeliversInOrder | csf_assign05/server.cpp:103-121 | While sends succeed, the receiver is handed a prefix of its queue in FIFO order. |
| ChatServer.Serve | csf_assign05/server.cpp:125-164 | The whole connection. The first reply answers the login, a failed login changes nothing, and the state stays consistent. |
| ChatServer.ScenarioDelivery | csf_assign05/server.cpp:46-121 | A receiver joined to "lobby" gets "lobby:alice:hi" after alice joins "lobby" and sends "hi". |
| ChatSender.NextToken | csf_assign05/sender.cpp:20-22 | `stream >> string` skips white space and takes a maximal non-empty run without white space. It yields nothing iff only white space remains. |
| ChatSender.Interpret | csf_assign05/sender.cpp:16-66 | A request is only ever QUIT, JOIN, LEAVE or SENDALL. A SENDALL request carries the whole line, which is at most MAX_LEN long. |
| ChatSender.InterpretMeaning | csf_assign05/sender.cpp:16-66 | A line becomes QUIT, JOIN, LEAVE or SENDALL only. SENDALL is chosen exactly for a non-command line of at most MAX_LEN, and carries the whole line. QUIT, LEAVE and JOIN come only from their commands, and `/quit` and `/leave` always give QUIT "bye" and LEAVE "". Unknown commands are rejected. |
| ChatSender.QuitIgnoresRest | csf_assign05/sender.cpp:27-31 | `/quit` followed by anything gives QUIT "bye". |
| ChatSender.JoinTakesSecondToken | csf_assign05/sender.cpp:33-43 | `/join ROOM ...` gives JOIN with ROOM, the second token. |
| ChatSender.JoinWithoutRoom | csf_assign05/sender.cpp:34-39 | `/join` with no room is rejected. |
| ChatSender.LoneSlashIsMessage | csf_assign05/sender.cpp:24 | "/" alone is not a command (the command must be longer than one character), so it is sent as a message. |
| ChatSender.ClientLoop | csf_assign05/sender.cpp:109-142 | A client that stops on QUIT has sent QUIT "bye" last, and no more requests are sent than lines read. |
| ChatSender.ClientQuitsIff | csf_assign05/sender.cpp:111-140 | The client exits on QUIT exactly when some line is a QUIT request answered OK. |
| ChatSender.EmptyLinesIgnored | csf_assign05/sender.cpp:115 | Deleting an empty input line changes nothing the client does. |
| ChatReceiver.Find | csf_assign05/receiver.cpp:75-76 | `find` returns the first occurrence at or after the start, or npos if there is none. |
| ChatReceiver.Substr | csf_assign05/receiver.cpp:78-79 | `substr` takes at most n characters from pos, clipped at the end. |
| ChatReceiver.SplitDelivery | csf_assign05/receiver.cpp:75-79 | The sender part never contains a colon, whatever the payload. The text part is always a suffix of the payload. |
| ChatReceiver.PayloadRoundTrip | csf_assign05/receiver.cpp:73-81 | For a room and sender without ':', splitting the server's payload gives back exactly (sender, text), even when the text contains colons. |
| ChatReceiver.SplitWithoutColon | csf_assign05/receiver.cpp:75-79 | With no colon, the size_t wrap-around makes both sender and text the whole payload. |
| ChatReceiver.SplitWithOneColon | csf_assign05/receiver.cpp:75-79 | With one colon, the sender is what follows it and the text is the whole payload. |
| ChatReceiver.RunHandshake | csf_assign05/receiver.cpp:24-67 | The client reaches its receive loop iff both sends succeed and both replies are OK. JOIN is sent only after an OK to rlogin. |
| ChatReceiver.HandshakeExit | csf_assign05/receiver.cpp:24-67 | A failed handshake exits with status 1. |
| ChatReceiver.ReceiveLoop | csf_assign05/receiver.cpp:70-89 | The loop runs on exactly while every receive succeeds and is not ERR. It otherwise exits with 0 or 1. |
| ChatReceiver.ErrExitsWithOne | csf_assign05/receiver.cpp:83-86 | An ERR reached before any failed receive exits with status 1. |
| ChatReceiver.FailedReceiveExitsWithZero | csf_assign05/receiver.cpp:71-89 | A failed receive reached before any ERR ends the loop with status 0. |
| ChatReceiver.OtherTagsIgnored | csf_assign05/receiver.cpp:71-87 | Dropping a message whose tag is neither DELIVERY nor ERR changes nothing. |
| ChatReceiver.PrintsBroadcast | csf_assign05/receiver.cpp:73-81 | A delivery built by the server's broadcast prints exactly its sender and text. |

## Left out

- Printing, `cerr` diagnostics, socket I/O and the accept loop in `handle_client_requests` are left out. They are I/O: each receive and each send is an input to the model.
- Threads, mutexes and `pthread_detach` are left out. Each operation is modelled as atomic, which is what the locks in room.cpp, message_queue.cpp and server.cpp provide. How broadcasts interleave with a receiver's dequeues is not modelled.
- MessageQueue.Dequeue: the one-second timeout of `sem_timedwait` and a wait interrupted by a signal are both modelled as "no message" on an empty queue. The real clock is not modelled.
- The wire format of a message, including its encoding, decoding and the exceptions they throw, is left out. message.h and connection.cpp are not part of this model. `MAX_LEN` is taken as 255, and a malformed frame is the `Malformed(reason)` input.
- `new`/`delete`, object lifetimes, and the server's destructor are left out. There is no memory management in the model.
- In the parallel quicksort (parsort.c), `fork`, `waitpid`, `mmap` and the file I/O of `main` are left out. The two halves are sorted one after the other, which gives the same array. Child failure codes are not modelled.
- ParSort.SortRange: the code calls the C library's `qsort` below the threshold. The model states only that the result is a sorted permutation, which is all the library promises.
- `stoull`/`stoi` argument conversion and its exception path in main.cpp are left out. The three sizes are given as already-converted `u64` values.
- FixpointHex.FormatHex: the character buffer, `snprintf` and `strncpy` mechanics are not modelled, and neither is truncation at the buffer size. Only the characters produced are modelled.
- ImgProc.Ellipse: the 64-bit products in is_in_ellipse are modelled on unbounded integers. They cannot overflow for image sizes that fit `int32_t`.
- FixpointMul.Mul: the result and both operands are taken to be distinct objects. When the result aliases an operand, the code reads that operand's zero test after overwriting it, which changes only the sign flag of a zero product of two non-zero operands.
- ChatSender.Interpret: the MAX_LEN bound counts characters, while `line.size()` counts bytes. The two agree only on ASCII lines.
- The usage checks on `argc` in the sender and receiver clients, and connection failure before login, are left out. They only print and exit with 1.
- In the sender client, the handshake at sender.cpp:87-107 is the same pattern as the receiver's, which is modelled. The model starts the sender at its main loop.

The code does the following, and the model follows it:

- A sender's LEAVE outside any room replies ERR "Not in a room". Simply clearing the room and replying OK is not what the code does.
- The sender client also exits with status 0 when its input ends (sender.cpp:142), not only after an acknowledged QUIT.
- A DELIVERY payload without colons is split by `std::string::find`/`substr` arithmetic on `size_t`. It does not fail: it yields the whole payload as both sender and text.

## Findings

| source | as written | input that shows it | evidently intended | confidence | as-written member | corrected member |
|---|---|---|---|---|---|---|
| csf_assign04/parsort.c:93-97 | `right_index` is `unsigned long` and the scan decrements it while `arr[right_index] >= pivot`. When every element left of the pivot is at least the pivot and `start` is 0, it steps from 0 to 2^64-1 and reads `arr[2^64-1]`. | `[5, 5]` (or `[2, 1]`) with start 0 and end 2 | The scan stops at `start` (a signed index, or a `right_index > left_index` guard before the decrement), so partition returns a position in the range. | not executed | ParSort.PartitionAsWrittenWraps | ParSort.Partition |
