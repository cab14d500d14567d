# tNETacle in Dafny

A model of the parts of tNETacle, a peer-to-peer VPN daemon, in which most can go wrong, with proofs of what they
promise. `dafny verify dfyconfig.toml` checks all of it.

- **Trees** (`RedBlack*.dfy`, `Splay*.dfy`). The red-black and splay trees of `tree.h`, as linked nodes rewired in
  place. A red-black tree is followed with a zipper: a subtree and its surroundings, both tied to the heap. The splay
  loop is followed as three pieces: the tree of smaller nodes, the middle tree, the tree of larger nodes. Its turns are
  counted, and bounded with a potential of rounded-down logarithms.
- **The imsg channel** (`Imsg*.dfy`). Messages and descriptors between the privileged and the unprivileged process:
  buffers, queue, partial writes, chunked reads, parsing. The classes are proved against functions on values, and the
  delivery theorem is about every run of these functions with a kernel between them.
- **The privilege-separated exchange** (`PrivSep.dfy`, `ImsgDispatch.dfy`). The two dispatch loops over two such
  channels, in every interleaving.
- **The fiber scheduler** (`Fiber*.dfy`). Nested launches, event dispatches and suspensions around the one shared
  `origin_ctx`, as a machine with a stack of activations; the functions of `sched.c` take its steps.
- **Frame forwarding** (`PeerGraph.dfy`, `Udp*.dfy`, `Flooding.dfy`, `Endpoint.dfy`). Each node relays a frame to every
  peer but the one it came from; on acyclic peerings this floods exactly the component of the origin.
- **The announcement line** (`Meta*.dfy`). Splitting a line in place, and the `udp_port` line that registers a peer.

## Assumptions

- Allocation succeeds. A user's `cmp` is modelled by an integer key per node.
- `sendmsg` takes any non-empty part of what it is offered, and a descriptor travels with the first byte of that part.
  `recvmsg` returns any non-empty part of what the kernel holds, with the descriptors of at most one `sendmsg`, and
  delivers only open descriptors.
- Integers in headers are little-endian; socket addresses have the layout of Linux. `IOV_MAX` is 1024. Lengths and
  widths that wrap in the source wrap in the model, except `queued`, which is unbounded.
- The flooding model treats a reception and a broadcast as one step each and loses no datagram. `UdpServer` has the
  loops themselves, with sends that fail.
- In the flooding model two peers are the same if family, address and port agree, which is what `Endpoint.Cmp` decides
  for addresses of equal length.
- `async_event` is called with `EV_READ`, as its only caller does. Descriptor events fire only while no fiber runs, since
  only the event loop dispatches them.
- An address is configured for the device. The number in an announcement fits an int.

## Where code and promise differ

- `SPLAY_REMOVE` returns its argument, which need not be the node taken out. `SplayTree.Head.Remove` says so.
- `async_sendto` records SEND, so the operation performed for it drops the address. `FiberReturns` follows the code;
  `UdpServer` and `Flooding` take `async_sendto` at its signature.
- `async_wake` may wake a fiber that is not yielding, and the device fiber may do this to the broadcaster. The call the
  target was in then returns without its operation having run (`FiberReturns.WakeDuringSend`).
- The command of an announcement line is compared over the length of what was read, so every prefix of it passes. A line
  without a second field is read past its fields. `MetaAnnounce` gives both conditions, and `ReadLine` counts the second.
- The address of SET_IP is copied into 128 bytes without a check. `PrivSep.Handshake` gives the exact condition and
  `PrivSep.OverrunAt128` the first length that fails. The 16-bit length argument of `imsg_compose` cuts longer addresses.
- `sched_fiber_exit` leaves the descriptor events of the fiber added, and `sched_fiber_launch` and `async_wake` do not
  look at the fiber they are given. `FiberSched.ControlKeeps` says which steps then lose control, `FiberReturns.SafeExactly`
  which steps a caller may take, and `FiberReturns.LostAfterExit` shows a run that goes wrong.
- `imsg_composev` cuts the length of each piece to 16 bits. `ImsgEndpoint.PayloadWhole` says when nothing is lost.
- A temporary error of `recvmsg` is not told apart from data by the dispatch loops, which then handle what is buffered.

## Model

| member | source | states |
|---|---|---|
| `RedBlackTree.Head.Remove` | sys/wnt/libevent/include/tree.h:510-575 | RB_REMOVE of any node of any valid tree leaves a valid tree (linked both ways, increasing keys, no red node under a red parent, equal black heights, black root) whose in-order sequence is the old one with exactly that node taken out |
| `RedBlackTree.Head.RemoveAt` | sys/wnt/libevent/include/tree.h:510-575 | the in-order sequence afterwards is the old one without the removed node, in the one-child and the two-child case |
| `RedBlackTree.Head.RemoveTwo` | sys/wnt/libevent/include/tree.h:519-558 | with two children, the successor takes the node's place and colour; what is left to repair is one missing black above `child`, and only if the successor was black |
| `RedBlackTree.Head.Leftmost` | sys/wnt/libevent/include/tree.h:521-523 | descending left ends at the first node of the subtree in order |
| `RedBlackTree.Head.Unlink` | sys/wnt/libevent/include/tree.h:559-570 | a node with at most one child is replaced by that child, all links to and from the surroundings agreeing |
| `RedBlackTree.Head.Transplant` | sys/wnt/libevent/include/tree.h:539-550 | the successor takes over all links of the removed node, the tree otherwise unchanged |
| `RedBlackTree.Head.RemoveColor` | sys/wnt/libevent/include/tree.h:434-508 | the fix-up loop ends, turns a tree that lacks one black below one position into a red-black tree and keeps in-order sequence and nodes |
| `RedBlackTree.Head.RemoveStepLeft` | sys/wnt/libevent/include/tree.h:440-471 | one turn of the loop on a left child keeps the loop invariant and the in-order sequence and moves towards the root, or reaches a red node |
| `RedBlackTree.Head.RemoveStepRight` | sys/wnt/libevent/include/tree.h:472-504 | the same on a right child |
| `RedBlackTree.Head.RemoveRedSiblingLeft` | sys/wnt/libevent/include/tree.h:442-446 | a red sibling is rotated up; the new sibling is black and the invariant holds one level lower |
| `RedBlackTree.Head.RemoveBlackNephewsLeft` | sys/wnt/libevent/include/tree.h:447-453 | with two black nephews the missing black moves to the parent |
| `RedBlackTree.Head.RemoveNearNephewLeft` | sys/wnt/libevent/include/tree.h:455-463 | with only the near nephew red, a rotation makes the far one red |
| `RedBlackTree.Head.RemoveFarNephewLeft` | sys/wnt/libevent/include/tree.h:464-470 | with the far nephew red, one rotation supplies the missing black |
| `RedBlackTree.Head.RemoveRedSiblingRight` | sys/wnt/libevent/include/tree.h:474-478 | mirror image of the red-sibling case |
| `RedBlackTree.Head.RemoveBlackNephewsRight` | sys/wnt/libevent/include/tree.h:479-485 | mirror image of the black-nephews case |
| `RedBlackTree.Head.RemoveNearNephewRight` | sys/wnt/libevent/include/tree.h:487-495 | mirror image of the near-nephew case |
| `RedBlackTree.Head.RemoveFarNephewRight` | sys/wnt/libevent/include/tree.h:496-502 | mirror image of the far-nephew case |
| `RedBlackDelete.SiblingExists` | sys/wnt/libevent/include/tree.h:438-450 | wherever the fix-up loop stands below the root, the sibling it dereferences is not NULL, and a red sibling has two black children |
| `RedBlackDelete.RedSiblingLeft` | sys/wnt/libevent/include/tree.h:442-446 | the recoloured rotation of the red-sibling case restores the loop invariant and keeps the in-order sequence |
| `RedBlackDelete.BlackNephewsLeft` | sys/wnt/libevent/include/tree.h:447-453 | reddening the sibling moves the invariant to the parent |
| `RedBlackDelete.NearNephewLeft` | sys/wnt/libevent/include/tree.h:455-463 | rotating the sibling leaves the invariant with a red far nephew |
| `RedBlackDelete.FarNephewLeft` | sys/wnt/libevent/include/tree.h:464-470 | the last rotation gives a red-black tree with the same in-order sequence |
| `RedBlackDelete.RedSiblingRight` | sys/wnt/libevent/include/tree.h:474-478 | mirror image |
| `RedBlackDelete.BlackNephewsRight` | sys/wnt/libevent/include/tree.h:479-485 | mirror image |
| `RedBlackDelete.NearNephewRight` | sys/wnt/libevent/include/tree.h:487-495 | mirror image |
| `RedBlackDelete.FarNephewRight` | sys/wnt/libevent/include/tree.h:496-502 | mirror image |
| `RedBlackDelete.DeleteDone` | sys/wnt/libevent/include/tree.h:506-507 | blackening the node at which the loop stops, red or the root, gives a red-black tree |
| `RedBlackDelete.UnlinkedOne` | sys/wnt/libevent/include/tree.h:559-573 | taking a node with at most one child out of a red-black tree leaves a red-black tree if it was red, and exactly one missing black if it was black |
| `RedBlackDelete.UnlinkedTwo` | sys/wnt/libevent/include/tree.h:519-573 | the same for the successor that replaces a node with two children |
| `RedBlackDelete.UnlinkedOneInorder` | sys/wnt/libevent/include/tree.h:559-570 | the in-order sequence loses exactly that node |
| `RedBlackDelete.UnlinkedTwoInorder` | sys/wnt/libevent/include/tree.h:519-550 | the in-order sequence loses exactly the removed node when its successor takes its place |
| `RedBlackTree.Head.Insert` | sys/wnt/libevent/include/tree.h:577-606 | RB_INSERT returns the node with an equal key, with head and every node unchanged, or returns NULL and the in-order sequence has exactly elm more; the tree stays valid. elm may be in the tree already |
| `RedBlackTree.Head.InsertColor` | sys/wnt/libevent/include/tree.h:390-432 | the recolouring loop ends in a red-black tree with the same in-order sequence and nodes; the grandparent it dereferences exists |
| `RedBlackTree.Head.InsertRecolor` | sys/wnt/libevent/include/tree.h:399-403 | a red uncle: both parents turn black, the grandparent red, and the invariant moves there |
| `RedBlackTree.Head.InsertRotateLeft` | sys/wnt/libevent/include/tree.h:405-412 | a black uncle on the right: one or two rotations keep the invariant and end the loop |
| `RedBlackTree.Head.InsertRotateRight` | sys/wnt/libevent/include/tree.h:421-428 | a black uncle on the left: mirror image |
| `RedBlackTree.Head.LinkLeaf` | sys/wnt/libevent/include/tree.h:595-603 | the new red leaf hangs where the search ended, with all links set |
| `RedBlackBalance.UncleOf` | sys/wnt/libevent/include/tree.h:394-399 | under a red parent the grandparent exists and is black, and the uncle is as black as the inserted tree |
| `RedBlackBalance.InsertedLeft` | sys/wnt/libevent/include/tree.h:405-412 | the rotated and recoloured tree meets the loop invariant with a black parent and keeps the in-order sequence |
| `RedBlackBalance.InsertedRight` | sys/wnt/libevent/include/tree.h:421-428 | mirror image |
| `RedBlackBalance.InsertedRecolor` | sys/wnt/libevent/include/tree.h:399-404 | recolouring moves the invariant two levels up and keeps the in-order sequence |
| `RedBlackBalance.InsertedRoot` | sys/wnt/libevent/include/tree.h:431-431 | blackening the root ends the repair with a red-black tree |
| `RedBlackTree.Head.RotateLeft` | sys/wnt/libevent/include/tree.h:335-353 | links and root represent the left rotation of the subtree, everything around it untouched |
| `RedBlackTree.HangLeft` | sys/wnt/libevent/include/tree.h:348-349 | the last two assignments of a left rotation: the three subtrees come to stand under elm and tmp in order |
| `RedBlackTree.HangRight` | sys/wnt/libevent/include/tree.h:368-369 | mirror image |
| `RedBlackTree.Head.RotateRight` | sys/wnt/libevent/include/tree.h:355-373 | links and root represent the right rotation of the subtree |
| `RedBlackBalance.RotatedLeft` | sys/wnt/libevent/include/tree.h:335-353 | a left rotation keeps the in-order sequence and the nodes |
| `RedBlackBalance.RotatedRight` | sys/wnt/libevent/include/tree.h:355-373 | a right rotation keeps the in-order sequence and the nodes |
| `RedBlackBalance.PlugRedBlack` | sys/wnt/libevent/include/tree.h:46-54 | a coloured subtree of the right black height in coloured surroundings makes a red-black tree |
| `RedBlackBalance.UnplugRedBlack` | sys/wnt/libevent/include/tree.h:46-54 | conversely every subtree of a red-black tree and its surroundings are coloured, with matching black heights |
| `RedBlackBalance.BalancedPaths` | sys/wnt/libevent/include/tree.h:48-49 | the black heights agree if and only if every path from the root to a leaf has the same number of black nodes |
| `RedBlackBalance.SizeInorder` | sys/wnt/libevent/include/tree.h:53-54 | the n of the height bound is the number of nodes in order |
| `RedBlackBalance.HeightBound` | sys/wnt/libevent/include/tree.h:53-54 | a red-black tree of n nodes has height at most 2 lg(n + 1), stated as 2^height <= (n + 1)^2 |
| `RedBlackTree.Head.Find` | sys/wnt/libevent/include/tree.h:608-624 | RB_FIND returns a node with the key if and only if there is one; it makes one comparison for each node on the way down to the key, at most height many, hence at most 2 lg(n + 1) |
| `RedBlackTree.Head.Search` | sys/wnt/libevent/include/tree.h:584-594 | the descent ends at the node with the key, or at the empty position where the key belongs; it takes as many steps as there are nodes on the way, the depth of the position and the node found |
| `RedBlackSearch.StepLeft` | sys/wnt/libevent/include/tree.h:587-591 | going left or right keeps the position around the key: all nodes before are smaller, all after larger |
| `RedBlackSearch.StepRight` | sys/wnt/libevent/include/tree.h:587-591 | mirror image |
| `RedBlackSearch.EmptyHole` | sys/wnt/libevent/include/tree.h:584-603 | an empty position reached this way proves the key absent, and filling it keeps the keys increasing |
| `RedBlackSearch.SortedUnique` | sys/wnt/libevent/include/tree.h:46-54 | an increasing sequence is determined by its set of nodes |
| `RedBlackTree.Head.MinMax` | sys/wnt/libevent/include/tree.h:647-660 | RB_MINMAX returns the first or last node in order, NULL exactly on the empty tree |
| `RedBlackTree.Head.Next` | sys/wnt/libevent/include/tree.h:626-645 | RB_NEXT through parent pointers returns the in-order successor, NULL exactly at the last node |
| `RedBlackTree.Head.Climb` | sys/wnt/libevent/include/tree.h:634-641 | the climb ends at the first ancestor reached from its left subtree, which is the successor |
| `RedBlackTree.Head.Foreach` | sys/wnt/libevent/include/tree.h:672-675 | RB_FOREACH ends and visits exactly the in-order sequence: every node once, keys strictly increasing |
| `SplayTree.Head.Splay` | sys/wnt/libevent/include/tree.h:202-235 | SPLAY ends, keeps the in-order sequence and the nodes, and leaves the key at the root if present, otherwise an immediate in-order neighbour of it; the tree is that of the function SplayOf, and the count of turns, which only this loop raises, grows by Turns |
| `SplayCost.AmortisedTotal` | sys/wnt/libevent/include/tree.h:42-44 | any m finds, inserts and removes, starting with any tree of n nodes, take at most 2 n lg(n + 1) + m (12 lg(n + i + 2) + 2) turns of the SPLAY loop together, i being the number of inserts |
| `SplayCost.Balance` | sys/wnt/libevent/include/tree.h:42-44 | the Balance Theorem: on an initially empty tree m operations, n of them inserts, take at most m (12 lg(n + 2) + 2) turns |
| `SplayCost.Amortised` | sys/wnt/libevent/include/tree.h:42-44 | m operations on a tree that stays below n nodes take at most m (12 lg(n + 1) + 2) turns, beyond what the potential they start with, less the one they end with, pays for |
| `SplayCost.OpPaid` | sys/wnt/libevent/include/tree.h:42-44 | each operation on n nodes costs, amortised, at most 12 lg(n + 2) + 2 turns |
| `SplayCost.SplayPaid` | sys/wnt/libevent/include/tree.h:202-235 | one SPLAY costs, amortised, at most 6 lg(n + 1) + 1 turns |
| `SplayCost.TurnsPath` | sys/wnt/libevent/include/tree.h:211-233 | the turns of SPLAY are at least half the nodes on the way to the key, rounded down, and at most all of them |
| `SplayCost.WeightInorder` | sys/wnt/libevent/include/tree.h:42-44 | the n of the amortised bounds is the number of nodes in order |
| `Powers.LgExactly` | sys/wnt/libevent/include/tree.h:42-44 | the logarithm of the bounds is the exponent of the largest power of two not above its argument |
| `SplayCost.AllPaid` | sys/wnt/libevent/include/tree.h:211-233 | the turns of the loop and twice the potential of what it parts the tree into are at most twice the old potential plus 4 lg(n + 1) + 1 |
| `SplayCost.ZigZigLeft` | sys/wnt/libevent/include/tree.h:212-221 | a turn that rotates and links pays for itself; ZigZag and ZigZagZig do so for a plain link together with the turn the other way that must follow it |
| `SplayCost.ZigZagLeft` | sys/wnt/libevent/include/tree.h:211-233 | a link on one side and a link on the other pay for themselves together |
| `SplayCost.ZigZagZigLeft` | sys/wnt/libevent/include/tree.h:211-233 | so do a link on one side and a rotation with a link on the other |
| `SplayCost.InsertPaid` | sys/wnt/libevent/include/tree.h:157-179 | SPLAY_INSERT adds at most one node and costs, amortised, at most 8 lg(n + 2) + 1 turns |
| `SplayCost.RemovePaid` | sys/wnt/libevent/include/tree.h:181-200 | SPLAY_REMOVE with its two SPLAYs costs, amortised, at most 12 lg(n + 1) + 2 turns |
| `SplayTree.Head.Run` | sys/wnt/libevent/include/tree.h:42-44 | any finds, inserts and removes one after the other raise the count of turns by at most 2 n lg(n + 1) + m (12 lg(n + i + 2) + 2): n nodes in order at the start, m operations, i of them inserts |
| `SplayCost.AllAndOne` | sys/wnt/libevent/include/tree.h:42-44 | the cost of a sequence of operations is the sum of the costs of each on the tree the ones before leave |
| `SplayTree.Head.StepLeft` | sys/wnt/libevent/include/tree.h:212-221 | one turn to the left keeps the whole sequence and what the loop is going to make of the tree, and shrinks the middle tree or stops where the key belongs |
| `SplayTree.Head.StepRight` | sys/wnt/libevent/include/tree.h:222-232 | mirror image |
| `SplayTree.Head.RotateRight` | sys/wnt/libevent/include/tree.h:81-85 | the links represent the right rotation of the middle tree |
| `SplayTree.Head.RotateLeft` | sys/wnt/libevent/include/tree.h:87-91 | the links represent the left rotation of the middle tree |
| `SplayTree.Head.LinkLeft` | sys/wnt/libevent/include/tree.h:93-97 | the root and its right subtree move to the end of the tree of larger nodes, whose last node is returned |
| `SplayTree.Head.LinkRight` | sys/wnt/libevent/include/tree.h:99-103 | the root and its left subtree move to the end of the tree of smaller nodes |
| `SplayTree.Head.Assemble` | sys/wnt/libevent/include/tree.h:105-110 | the pieces held by the header node `__node` and the two cursors become one tree without it |
| `SplaySearch.LinkedLeft` | sys/wnt/libevent/include/tree.h:93-97 | linking keeps the in-order sequence of the pieces and the key between them |
| `SplaySearch.LinkedRight` | sys/wnt/libevent/include/tree.h:99-103 | mirror image |
| `SplaySearch.AssembledInorder` | sys/wnt/libevent/include/tree.h:105-110 | assembling keeps the in-order sequence of the three pieces |
| `SplaySearch.AssembledSplayed` | sys/wnt/libevent/include/tree.h:202-235 | if the middle tree cannot be split further around the key, the assembled tree has the key, or a neighbour, at its root |
| `SplaySearch.SplayedRoot` | sys/wnt/libevent/include/tree.h:120-130 | in a splayed tree the key is at the root or nowhere |
| `SplayTree.Head.Find` | sys/wnt/libevent/include/tree.h:120-130 | SPLAY_FIND returns the node with the key if and only if there is one, and keeps contents and order; the tree, and by how much the count of turns grows, are what the amortised bound speaks of |
| `SplayTree.Head.Insert` | sys/wnt/libevent/include/tree.h:157-179 | SPLAY_INSERT returns NULL and the in-order sequence has exactly elm more, or it returns the node with an equal key and keeps contents and order; the tree, and by how much the count of turns grows, are what the amortised bound speaks of. elm may be in the tree already |
| `SplayTree.Head.Remove` | sys/wnt/libevent/include/tree.h:181-200 | SPLAY_REMOVE takes exactly the node with elm's key out of the in-order sequence; it returns its argument, not the node, if there was one and NULL otherwise; the tree, and by how much the count of turns grows, are what the amortised bound speaks of |
| `SplayTree.RemovedJoin` | sys/wnt/libevent/include/tree.h:191-195 | the re-splayed left tree has an empty right child, so hanging the saved right tree there loses nothing and keeps the order |
| `SplayTree.Head.Next` | sys/wnt/libevent/include/tree.h:132-144 | SPLAY_NEXT returns the in-order successor, NULL exactly at the last node, after one SPLAY |
| `SplayTree.Head.MinMax` | sys/wnt/libevent/include/tree.h:237-271 | on a non-empty tree SPLAY_MINMAX brings the first or last node to the root and keeps the order |
| `SplayTree.Head.MinOrMax` | sys/wnt/libevent/include/tree.h:280-283 | SPLAY_MIN and SPLAY_MAX return the first or last node, NULL exactly on the empty tree, and keep the order |
| `SplayTree.Head.HangLeft` | sys/wnt/libevent/include/tree.h:166-169 | elm goes above the root, with the old root and its right tree on its right |
| `SplayTree.Head.HangRight` | sys/wnt/libevent/include/tree.h:170-173 | mirror image |
| `SplayTree.Head.MinMaxStep` | sys/wnt/libevent/include/tree.h:247-269 | one turn keeps the sequence and shrinks the middle tree, or stops at the end |
| `SplayTree.Head.Foreach` | sys/wnt/libevent/include/tree.h:285-288 | SPLAY_FOREACH ends and visits exactly the in-order sequence, which splaying on the way does not change |
| `ImsgRuns.Delivery` | sys/unix/imsg.c:44-132 | over every interleaving of compose, partial write, chunked read and get, the messages returned are a prefix of those composed, with type, peerid, pid, data and descriptor; no message is malformed, imsg_get_fd never finds its queue empty for a flagged message, and when no message is complete fewer than MAX_IMSGSIZE bytes are buffered |
| `ImsgRuns.RunKeeps` | sys/unix/imsg.c:44-230 | every run keeps the channel invariant |
| `ImsgRuns.QuietDelivered` | sys/unix/imsg.c:44-132 | a channel in which no step is possible has returned every message composed, and no descriptor is left over |
| `ImsgRuns.StepProgress` | sys/unix/imsg.c:44-132 | every write, read and get strictly lowers a measure, so without new messages every run ends |
| `ImsgRuns.Completes` | sys/unix/imsg.c:44-132 | from every reachable state some run returns every message composed |
| `ImsgChannel.ComposeKeeps` | sys/unix/imsg.c:134-230 | composing keeps the invariant: bytes received, in the kernel and queued are the encoding of the messages due, and descriptors travel in step with their messages |
| `ImsgChannel.WriteKeeps` | sys/unix/imsg-buffer.c:220-284 | so does a write of any non-empty part of what is offered, also when the gather loop stops at IOV_MAX on a buffer it did not include |
| `ImsgChannel.AheadOfWrite` | sys/unix/imsg-buffer.c:236-279 | descriptors are sent no later than the first byte of their message |
| `ImsgChannel.ReadKeeps` | sys/unix/imsg.c:44-92 | so does a read of any part of what the kernel holds |
| `ImsgChannel.GetKeeps` | sys/unix/imsg.c:94-132 | so does taking out a message |
| `ImsgChannel.GotNext` | sys/unix/imsg.c:94-132 | what imsg_get takes out is the next message due, with its own descriptor |
| `ImsgChannel.Front` | sys/unix/imsg.c:99-111 | the front of the buffer is never malformed, and an incomplete message leaves fewer than MAX_IMSGSIZE bytes |
| `ImsgWire.HeaderRoundTrip` | include/imsg.h:70-76 | a header read back from its bytes is the header written |
| `ImsgWire.HeaderLayout` | include/imsg.h:70-76 | type, length, flags, peerid and pid stand at bytes 0, 4, 6, 8 and 12 |
| `ByteOrder.U32Bytes` | include/imsg.h:70-76 | least significant byte first |
| `ImsgWire.EncodeBytes` | sys/unix/imsg.c:185-230 | the bytes queued for a message: header fields at their places, length and flag as imsg_close sets them, then the data |
| `ImsgWire.ParseExactly` | sys/unix/imsg.c:99-112 | of any bytes whatever: incomplete below 16, malformed exactly for a length below 16 or above 16384, otherwise whole once that many are there |
| `ImsgWire.FrontBytes` | sys/unix/imsg.c:104-122 | the message returned has the fields read from their places, and the first descriptor received exactly if bit 0 of the flags is set |
| `ImsgWire.ParseEncoded` | sys/unix/imsg.c:99-131 | parsing the encoding of a message that fits yields its header and data |
| `ImsgQueue.DrainExact` | sys/unix/imsg-buffer.c:193-209 | msgbuf_drain removes exactly the first n pending bytes, across any number of buffers |
| `ImsgQueue.DrainFds` | sys/unix/imsg-buffer.c:193-209 | descriptors leave the queue only by being closed, in order |
| `ImsgQueue.WriteClosesNothing` | sys/unix/imsg-buffer.c:276-281 | called from msgbuf_write, msgbuf_drain closes no descriptor, so none is closed unsent |
| `ImsgQueue.DetachFds` | sys/unix/imsg-buffer.c:236-279 | the descriptor attached to a sendmsg is the first one in the queue |
| `ImsgQueue.IncludedExactly` | sys/unix/imsg-buffer.c:236-244 | the gather loop stops only at the end of the queue, at IOV_MAX, or behind the first buffer with a descriptor |
| `ImsgQueue.AttachedExactly` | sys/unix/imsg-buffer.c:236-257 | a descriptor goes along if and only if one of the first IOV_MAX + 1 buffers has one, and it is the first of these |
| `ImsgBuffer.Ibuf.Open` | sys/unix/imsg-buffer.c:35-50 | an empty buffer of fixed size without descriptor |
| `ImsgBuffer.Ibuf.Realloc` | sys/unix/imsg-buffer.c:69-87 | grows exactly if the result stays within max, keeping what is written |
| `ImsgBuffer.Ibuf.Add` | sys/unix/imsg-buffer.c:89-99 | appends the data if the result stays within max, and otherwise changes nothing |
| `ImsgBuffer.Msgbuf.Enqueue` | sys/unix/imsg-buffer.c:286-291 | appends one buffer; `queued` equals the length of the queue |
| `ImsgBuffer.Msgbuf.Dequeue` | sys/unix/imsg-buffer.c:293-303 | takes the first buffer out and closes its descriptor, if any; `queued` equals the length of the queue |
| `ImsgBuffer.Msgbuf.DrainOne` | sys/unix/imsg-buffer.c:198-208 | one turn of the drain loop leaves the same final queue and the same descriptors to close |
| `ImsgBuffer.Msgbuf.DrainBytes` | sys/unix/imsg-buffer.c:193-209 | the loop computes Drain and closes DrainClosed, about which DrainExact and DrainFds speak |
| `ImsgBuffer.Msgbuf.Clear` | sys/unix/imsg-buffer.c:211-218 | empties the queue and closes exactly the descriptors left in it |
| `ImsgBuffer.Msgbuf.Gather` | sys/unix/imsg-buffer.c:236-249 | the pieces offered to sendmsg are the pending bytes of the buffers up to the first descriptor or IOV_MAX, and the position at which the loop stops decides whether a descriptor is attached |
| `ImsgBuffer.Msgbuf.CloseSent` | sys/unix/imsg-buffer.c:276-279 | exactly the attached descriptor is closed and forgotten |
| `ImsgBuffer.Msgbuf.Write` | sys/unix/imsg-buffer.c:220-284 | after sendmsg took n bytes the queue has lost exactly those bytes and the attached descriptor, which is the only one closed; errors change nothing |
| `ImsgEndpoint.Imsgbuf.constructor` | sys/unix/imsg.c:33-42 | nothing received, nothing queued |
| `ImsgEndpoint.Imsgbuf.Read` | sys/unix/imsg.c:44-92 | appends bytes and descriptors to what was received; errors change nothing |
| `ImsgEndpoint.Imsgbuf.Get` | sys/unix/imsg.c:94-132 | returns the message parsed from the front and removes exactly its bytes and its descriptor, or changes nothing |
| `ImsgEndpoint.Imsgbuf.Compact` | sys/unix/imsg.c:124-129 | what follows the message moves to the front of the buffer, in place |
| `ImsgEndpoint.Imsgbuf.GetFd` | sys/unix/imsg.c:238-252 | takes the first received descriptor, -1 if there is none |
| `ImsgEndpoint.Imsgbuf.Clear` | sys/unix/imsg.c:263-271 | closes every queued and every received descriptor and forgets them |
| `ImsgEndpoint.Imsgbuf.Create` | sys/unix/imsg.c:177-203 | fails exactly if the 16-bit sum of payload and header length exceeds MAX_IMSGSIZE; otherwise the buffer holds the header, with the sender's pid for pid 0 |
| `ImsgEndpoint.Imsgbuf.AddData` | sys/unix/imsg.c:205-214 | succeeds exactly if header, previous data and new data fit, and then holds all of them |
| `ImsgEndpoint.Imsgbuf.Close` | sys/unix/imsg.c:216-230 | the queued buffer is the encoding of the message: flag set exactly if a descriptor goes with it, length equal to the bytes stored |
| `ImsgEndpoint.Imsgbuf.Compose` | sys/unix/imsg.c:134-151 | succeeds exactly if the payload is at most MAX_IMSGSIZE less the header, for every 16-bit length, and then queues the encoding of the message; otherwise nothing changes |
| `ImsgEndpoint.Imsgbuf.Composev` | sys/unix/imsg.c:153-175 | succeeds exactly if the bytes that survive the cut of each length to 16 bits fit, and then queues the message with these bytes |
| `ImsgEndpoint.Imsgbuf.AddPieces` | sys/unix/imsg.c:166-168 | the loop stores exactly the surviving bytes of all pieces, or fails because they do not fit |
| `ImsgEndpoint.PayloadLength` | sys/unix/imsg.c:158-168 | the wrapped sum of the lengths and the number of bytes stored agree modulo 2^16, so the header check never lets an oversized message through |
| `ImsgEndpoint.PayloadWhole` | sys/unix/imsg.c:166-168 | the bytes stored are all the bytes given if and only if every piece is shorter than 64 KiB |
| `ImsgEndpoint.PayloadExact` | sys/unix/imsg.c:166-168 | every stored byte has its place: the j-th byte of the i-th piece, for j below the length of the piece modulo 2^16, follows what is stored of the pieces before |
| `PrivSep.Handshake` | sys/unix/tnetacled.c:272-335 | in every interleaving at most one device is opened, the unprivileged side installs at most once and only its descriptor, and SET_IP is handled only when the device exists, is installed and its descriptor is closed on the privileged side; the address buffer is overrun if and only if a SET_IP was handled and the length of the address modulo 2^16 is 128 or more; when nothing can move any more the exchange is complete, and the configured address is set if and only if there is a device and the address is shorter than 128 bytes |
| `PrivSep.OverrunAt128` | sys/unix/tnetacled.c:320-324 | with an address of 128 bytes an ordinary exchange overruns the buffer and sets nothing |
| `PrivSep.ComesToRest` | sys/unix/tnetacled.c:272-335 | from every reachable state, and whatever opening the device yields, some interleaving brings the exchange to rest |
| `PrivSep.ReopenForgets` | sys/unix/tnetacled.c:305-319 | every CREATE_DEV opens a device anew; after one that fails, SET_IP is refused although a device is open |
| `PrivSep.MoveCloses` | sys/unix/imsg-buffer.c:276-281 | what a write closes is exactly the descriptor it takes off the queue |
| `PrivSep.DoKeeps` | sys/unix/tnetacled.c:272-335 | every action keeps the agreement between the two processes and what is between them |
| `PrivSep.PrivKeeps` | sys/unix/tnetacled.c:303-330 | handling a message on the privileged side keeps it, whether or not the device opens and the address fits the buffer |
| `PrivSep.UnprivKeeps` | sys/unix/tnetacle.c:295-311 | handling a message on the unprivileged side keeps it |
| `PrivSep.StartAgreed` | sys/unix/tnetacle.c:241-242 | the initial request establishes it |
| `PrivSep.DoProgress` | sys/unix/tnetacle.c:275-317 | every action strictly lowers a bounded measure, so every interleaving ends |
| `ImsgDispatch.HandleAll` | sys/unix/tnetacled.c:292-334 | a dispatch that ends well leaves fewer than MAX_IMSGSIZE bytes buffered |
| `ImsgDispatch.HandleAllPlays` | sys/unix/tnetacled.c:292-334 | on every stream of composed messages the loop ends well and leaves the state that as many PrivGets actions as possible leave in the protocol model, each message with its own outcome of opening a device; no complete message stays buffered, and there is room for the next imsg_read |
| `ImsgDispatch.Privileged.Handle` | sys/unix/tnetacled.c:303-330 | one message changes the privileged state and queues the reply as the protocol model says; an address that does not fit the buffer is counted as an overrun |
| `ImsgDispatch.CopyAddress` | sys/unix/tnetacled.c:321-324 | the buffer, cleared, filled and ended with a NUL, holds the payload up to its first NUL |
| `ImsgDispatch.Privileged.HandleMessages` | sys/unix/tnetacled.c:292-334 | the loop ends, handles the complete messages in order and stops at an incomplete or malformed one, with room for the next imsg_read |
| `ImsgDispatch.Privileged.Dispatch` | sys/unix/tnetacled.c:272-335 | what each outcome of recvmsg leads to, state and buffered bytes included: queue and descriptors cleared on an error, refusal on end of file, otherwise the handling of all complete messages |
| `ImsgDispatch.InstallAll` | sys/unix/tnetacle.c:295-315 | as HandleAll, for the unprivileged side |
| `ImsgDispatch.InstallAllPlays` | sys/unix/tnetacle.c:295-315 | as HandleAllPlays, for the unprivileged side and UnprivGets |
| `ImsgDispatch.Unprivileged.Handle` | sys/unix/tnetacle.c:296-310 | a CREATE_DEV installs its descriptor and queues SET_IP with the configured address |
| `ImsgDispatch.Unprivileged.HandleMessages` | sys/unix/tnetacle.c:295-316 | the loop ends, handles the complete messages in order and leaves room for the next imsg_read |
| `ImsgDispatch.Unprivileged.Dispatch` | sys/unix/tnetacle.c:275-317 | what each outcome of recvmsg leads to, as on the privileged side |
| `FiberSched.Innermost` | src/sched.c:114-159 | in every run a fiber that awaits or exits runs in the innermost activation, origin_ctx names that activation, control goes back to it and never to one that is gone, and afterwards origin_ctx names the activation around it |
| `FiberSched.ControlInRuns` | src/sched.c:388-523 | every run of launches nested to any depth, dispatches, suspensions, exits and wakes, until a step uses a fiber that is gone, keeps the stack linked through the saved origins, with exactly the running fibers on it |
| `FiberSched.ControlKeeps` | src/sched.c:388-523 | a step loses control if and only if it wakes or resumes a fiber that has exited, or launches one that is running; every other step keeps the stack linked |
| `FiberSched.Stops` | src/sched.c:133-157 | the transfer to origin_ctx takes exactly the innermost activation off the stack and restores the origin saved by a launch |
| `FiberSched.LaunchRestores` | src/sched.c:504-516 | however much runs and is launched inside it, a launch that returns leaves stack and origin_ctx as it found them |
| `FiberSched.EventsOnce` | src/sched.c:48-104 | over a whole run no event is made twice for the same fiber, descriptor and direction, a live fiber's table holds exactly the events made for it, and only events made are waited for |
| `FiberSched.EventsKeep` | src/sched.c:48-104 | one step keeps tables and events made in agreement |
| `FiberReturns.OwnResults` | src/sched.c:161-303 | in every run that wakes and launches safely, control is never lost; each read, recv, recvfrom, accept, send and write returns the result of the system call of that name on its own arguments, async_sendto that of send, async_event EV_READ; and a fiber suspended in a call is resumed by its descriptor turning readable, for read, recv, recvfrom, accept and event, or writable, for write, send and sendto, and by nothing else |
| `FiberReturns.CallsCan` | src/sched.c:136-339 | a running fiber can make each of these calls |
| `FiberReturns.YieldReturns` | src/sched.c:330-339 | async_yield returns what the last call of the fiber returned, with no system call made |
| `FiberReturns.EventWoken` | src/sched.c:432-491 | async_event returns EV_READ, and EV_TIMEOUT if a wake cuts it short |
| `FiberReturns.ReadyInRuns` | src/sched.c:161-363 | every such run keeps suspended fibers waiting for exactly one thing and all results honest |
| `FiberReturns.ResumedReady` | src/sched.c:388-497 | resuming a fiber by what it waits for runs its recorded operation, once, and returns its result |
| `FiberReturns.SafeExactly` | src/sched.c:356-363 | a step is harmless in every continuation, losing neither control nor a result, if and only if it is safe: a wake must find its target suspended in async_yield, a launch must find a new fiber or one yielding and not woken; neither function checks it |
| `FiberReturns.WakeExactly` | src/sched.c:356-363 | for a wake: if and only if its target is suspended in async_yield |
| `FiberReturns.LostAfterExit` | src/sched.c:123-125 | if a fiber woken while it sends then exits, its event is still added, and when that fires control goes to a fiber that is gone |
| `FiberReturns.WakeDuringSend` | src/device.c:165-168 | a fiber woken while it sends returns from the call although nothing was sent |
| `FiberReturns.SendingReached` | src/sched.c:305-328 | the state in which that happens is reached by an ordinary run, and the recorded operation of async_sendto is SEND |
| `FiberTasks.Task.GetEvents` | src/sched.c:48-104 | the entry returned has the event asked for, an event is made exactly if it was missing, and the other entries stay |
| `FiberTasks.Task.Suspend` | src/sched.c:136-339 | a suspending call leaves the fiber as the machine says: its own operation recorded, SEND for async_sendto, with its arguments, and its event made and armed |
| `FiberTasks.Task.Perform` | src/sched.c:396-495 | the switch makes the system call the machine says, or none, and stores its result |
| `FiberTasks.Task.Resume` | src/sched.c:388-497 | the fiber is resumed as the machine says |
| `FiberTasks.Task.Finish` | src/sched.c:114-132 | the fiber ends as the machine says |
| `FiberTasks.Sched.NewFiber` | src/sched.c:525-567 | takes the machine's step and keeps the control invariants |
| `FiberTasks.Sched.Launch` | src/sched.c:504-516 | takes the machine's step and keeps the control invariants |
| `FiberTasks.Sched.Dispatch` | src/sched.c:388-497 | takes the machine's step and keeps the control invariants |
| `FiberTasks.Sched.Await` | src/sched.c:136-339 | takes the machine's step, with the transfer going to the last activation, and keeps the control invariants |
| `FiberTasks.Sched.Exit` | src/sched.c:114-134 | takes the machine's step, with the transfer going to the last activation, and keeps the control invariants |
| `FiberTasks.Sched.Wake` | src/sched.c:356-363 | takes the machine's step and keeps the control invariants |
| `Flooding.Flood` | src/udp.c:45-240 | on an acyclic symmetric peering, whatever the order of delivery, at most one write per node, none by the origin, an end after at most as many deliveries as there are other nodes, and then exactly the nodes connected to the origin have written the frame, unchanged |
| `Flooding.EchoFreeExactly` | src/udp.c:45-91 | no origin ever gets its frame back if and only if the peering is acyclic |
| `Flooding.HaltsExactly` | src/udp.c:45-240 | flooding ends after a bounded number of deliveries, for every origin and order, if and only if the peering is acyclic; the bound is then the number of other nodes |
| `Flooding.GoesRound` | src/udp.c:45-91 | on a cycle a packet can be delivered any number of times |
| `Flooding.Echo` | src/udp.c:45-91 | on every cycle some order of delivery brings the frame back to its origin |
| `Flooding.ReceiveKeeps` | src/udp.c:190-240 | every reception keeps the invariant: packets travel on different paths from the origin, and every path is taken by a packet or lies ahead of one |
| `Flooding.BroadcastFlooded` | src/udp.c:116-168 | the broadcast establishes it |
| `Flooding.OnePacketEach` | src/udp.c:45-91 | no two packets, received or in flight, are for the same node |
| `Flooding.Bounded` | src/udp.c:190-240 | there are never more packets than other nodes |
| `Flooding.AllPaths` | src/udp.c:45-91 | with nothing in flight every path from the origin has been taken |
| `PeerGraph.UniquePath` | src/udp.c:45-91 | an acyclic peering has only one path between two nodes |
| `UdpServer.Server.Forward` | src/udp.c:45-91 | sends the packet to exactly the other peers, in order, up to the first send that fails |
| `UdpServer.Server.SendToPeers` | src/udp.c:129-164 | sends the packet to the peers in order up to the first send that fails |
| `UdpServer.Server.Broadcast` | src/udp.c:116-168 | sends every queued frame, packed, to every peer, a failure ending only the turn of its frame, and empties the queue |
| `UdpServer.Server.Receive` | src/udp.c:190-240 | relays the packet as received and writes the frame it holds, of the length the first two bytes give, most significant first; a datagram at least that long is relayed and written whole |
| `UdpServer.BroadcastExact` | src/udp.c:116-168 | the i-th frame goes to the j-th peer at a position given by the counts before it, for exactly the peers before the one at which sending it failed |
| `UdpServer.BroadcastIsStart` | src/udp.c:116-168 | broadcasting one frame without a failure puts exactly the packets of the flooding model on the wire |
| `UdpServer.ReceiveIsStep` | src/udp.c:190-240 | receiving a broadcast packet without a failure sends and writes exactly what the step of the flooding model does |
| `UdpServer.ReceivesPacked` | src/udp.c:342-389 | a broadcast packet is received whole, whatever memory held before |
| `UdpFrames.UnpackPacked` | src/frame.c:29-52 | a packed frame unpacks to itself |
| `UdpFrames.PackedBytes` | src/udp.c:141-144 | the first two bytes of a packet are the length of the frame, most significant first, and the frame follows |
| `UdpFrames.UnpackedBytes` | src/udp.c:381-387 | as much of a packet is taken as its first two bytes say, or as there is |
| `UdpFrames.OthersExact` | src/udp.c:59-69 | the receivers of a relayed packet are exactly the peers other than the sender |
| `UdpFrames.OthersDistinct` | src/udp.c:59-69 | without duplicate peers nobody is sent the packet twice |
| `UdpServer.OthersAppend` | src/udp.c:59-69 | the receivers come in the order of the list |
| `Endpoints.Endpoint.constructor` | src/endpoint.c:25-33 | the address is stored, the rest of the storage zeroed |
| `Endpoints.Endpoint.Port` | src/endpoint.c:53-76 | the number that bytes 2 and 3 of an IPv4 or IPv6 address give, most significant first; anything for other families |
| `Endpoints.Endpoint.SetPort` | src/endpoint.c:78-99 | stores the port, modulo 2^16, in bytes 2 and 3, most significant first, and changes nothing else; other families are left alone |
| `Endpoints.Endpoint.CopyFrom` | src/endpoint.c:113-119 | the first addrlen bytes are copied, the rest keeps what it held |
| `Endpoints.CopyView` | src/endpoint.c:113-119 | an address survives the copy if the length in use covers it |
| `Endpoints.Endpoint.Cmp` | src/endpoint.c:172-179 | zero if and only if the lengths agree and, for IPv4, bytes 0 to 7 agree (family, port and address), or, for IPv6, bytes 0 to 3 and 8 to 23; never for other families |
| `Endpoints.PortRoundTrip` | src/endpoint.c:53-99 | a port read back from its bytes is the port written |
| `MetaLine.Lossless` | src/server.c:80-119 | the fields of any line, woven with the erased delimiters, are the line after its leading delimiters |
| `MetaLine.Cut` | src/server.c:80-119 | no field contains a space or a colon, and everything erased is one of the two |
| `MetaLine.FieldsUnique` | src/server.c:80-119 | there is no other way to cut the line |
| `MetaLine.NextToken` | src/server.c:80-103 | skips leading delimiters on a first call only, cuts the next field off in place and remembers what follows |
| `MetaLine.SkipDelims` | src/server.c:91-91 | strspn |
| `MetaLine.FindDelim` | src/server.c:93-93 | strpbrk |
| `MetaLine.Split` | src/server.c:105-119 | the offsets returned point at C strings in the line that are exactly its fields, in order |
| `MetaAnnounce.AtoiPrint` | src/mc.c:278-278 | reading a printed number back gives the number |
| `MetaAnnounce.PrintDecimal` | src/mc.c:278-278 | %d prints decimal notation, in character codes: the last digit is n modulo 10, what stands before it the notation of n / 10 |
| `MetaAnnounce.AtoiDecimal` | src/server.c:145-145 | atoi reads decimal notation, in character codes |
| `MetaAnnounce.AtoiAround` | src/server.c:145-145 | atoi skips white space, takes one sign, and stops at the first character that is no digit |
| `MetaAnnounce.AnnouncementUnderstood` | src/mc.c:272-280 | every announcement is the text udp_port, a colon and the port in decimal, and is read back as exactly that port |
| `MetaAnnounce.AnnouncedPort` | src/server.c:134-152 | any line that announces a port announces the number its second field spells, modulo 2^16 |
| `MetaAnnounce.AnnouncedExactly` | src/server.c:141-145 | a line announces a port if and only if its first field is a non-empty prefix of the command and a second field follows |
| `MetaAnnounce.NoArgumentExactly` | src/server.c:141-145 | the read callback reads past the fields if and only if the line, after its leading delimiters, is a prefix of the command without a delimiter |
| `MetaAnnounce.NoArgumentAt` | src/server.c:141-145 | every prefix of the command, from the empty line to the command on its own, is such a line |
| `MetaAnnounce.MetaServer.Register` | src/udp.c:93-114 | appends one peer with the bytes of the address in use, the flags given, and an ssl state only if the flags are DTLS_ENABLE and it could be made |
| `MetaAnnounce.MetaServer.RegisterAt` | src/server.c:148-156 | registers the bytes of the address with the port in bytes 2 and 3, most significant first, and no DTLS |
| `MetaAnnounce.MetaServer.ReadLine` | src/server.c:136-160 | a line that announces a port registers the bytes of the address of the connection with exactly that port in bytes 2 and 3, and no DTLS; any other line registers nothing; a field is read that is not there exactly on the lines without argument |

## Left out

- `coro.c`: a control transfer is a step that names the context it goes to.
- `dtls.c`, `compress.c`, `conf.c`, certificates and TLS, logging, daemonising, sandboxing: foreign libraries or glue.
- The Windows code, the Qt client and the broadcast client.
- `ibuf_write`, `imsg_flush`, `ibuf_reserve`, `ibuf_seek`: nothing in the modelled paths calls them.
- `async_sleep` and `async_continue`: nothing calls them. Fiber destructors and the freeing of stacks.
- `evutil_make_socket_nonblocking` after `async_accept`; the buffers that system calls fill, of which only the result is kept.
- The broadcaster suspending in the middle of its loop while new frames are queued, which its final clearing then drops.
- The end of `server_udp` on a receive error, and frames whose memory cannot be allocated.
- What the original does after it has overrun the address buffer, read a field that is not there, or lost control: the
  model counts or records these and promises nothing beyond.
- `endpoint_set_ipport`, `endpoint_presentation` and the other conversions to and from text.
- RB_AUGMENT, which is empty by default.
- SplayTree.Head.MinMax: only for a non-empty tree and a non-zero direction, since the loop dereferences the root and does not end for direction 0; MinOrMax models the macros around it, which test for the empty tree.
- ImsgEndpoint.Imsgbuf.Composev: totals that do not fit an int are excluded, as the sum then overflows.
