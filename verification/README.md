# Verification of the service runtime's core algorithms

Dafny models of the parts of the repository that carry state or hard arithmetic, with
proofs of what they are for:

- **Assignment solver** (`Assignment`, `HungarianPhase`, `KuhnMunkres`): the Kuhn-Munkres
  solver of the video streamer as a class over a mutable matrix, marks, covers and a path
  buffer. It terminates and is optimal for every cost matrix. `PoseMatching`,
  `PoseGrouping`, `PoseCosts` and `PoseBound` are its client: grouping detected joints into
  poses, which peak a pose gets, and how many poses there can be.
- **Streaming speech pipeline** (`BlockedPipeline`, `BlockedStage`, `SpeechPipeline`,
  `SpeechMeaning`): overlapping windows over a stream that arrives in arbitrary chunks, and
  two such stages in a row. Any cut of the stream gives the output of one call on the whole
  of it, and that output is the plain recurrence over all frames with their contexts.
- **Text detection** (`Transpose`, `Connectivity`, `LinkClustering`, `TextMask`,
  `OcrPipeline`, `CtcText`): index permutation, union-find with path compression over a
  pixel grid, labels as connected components, and greedy CTC text.
- **Photo library** (`PhotoTables`, `ScanProtocol`, `SmartPhoto`): tables with cascades and a
  worker thread that drops the lock while a client adds, moves, removes and stops. Every
  locked section is one step of a transition system, and the methods refine the steps.
- **Smaller algorithms**: `Nms` (box suppression), `Base64` and `FormData` (file upload),
  `Vad` (speech segmentation), `Backoff` (sampling interval of the policy daemon).

Costs, scores, areas and tags are reals and other numbers unbounded integers. What comes
from libraries is a parameter: the step of a neural stage, the spectrum of a window, the
softmax of a pair, a square root, the verdict of the voice detector, what inference finds
in a photo, the order in which a query lists its rows.

Three places where code and intention differ are modelled as the code has them.
`EncodeBase` writes a padded group even when no byte is left over and so reads one byte
past its input; `Base64.ExactIff` says which inputs come back unchanged. `get_data` takes
the first occurrence of `name=` even inside a longer name; `FormData.LongerNameHides`
shows it and `FormData.GetDataFindsIff` says exactly when a field comes back. `matchByTag`
looks at `maxNumPeople` only before a joint and lets the joint open several poses past it;
`PoseBound.ThreePosesForTwo` shows it and `PoseBound.BoundedIffFits` says exactly for which
numbers of peaks it cannot happen.

`dafny verify dfyconfig.toml` checks the whole project.

## Model

| member | source | states |
|---|---|---|
| `KuhnMunkresSolver.KuhnMunkres.Solve` | video-streamer/thirdparty/kuhn_munkres.cpp:13-41 | the documented contract, for every matrix, rectangular and negative included: distinct columns, as many rows assigned as fit, -1 for the rest; the total cost is least over all such assignments unless the solver was made greedy, and then the result is that of the row-by-row greedy pass |
| `Assignment.CertifiedOptimal` | video-streamer/thirdparty/kuhn_munkres.hpp:26-34 | duality: a total assignment of the padded square on zeros of non-negative reduced costs, cropped to the real rows and columns, is a cheapest full assignment of the original matrix |
| `Assignment.TightIsCheapest` | video-streamer/thirdparty/kuhn_munkres.cpp:122-169 | an assignment on zeros of a feasible reduced matrix costs no more than any other total one |
| `Assignment.CostAgainstPotentials` | video-streamer/thirdparty/kuhn_munkres.cpp:94-102 | the cost of any total assignment is at least the sum of all potentials, and equal on zeros |
| `Assignment.SumOverPermutation` | video-streamer/thirdparty/kuhn_munkres.cpp:13-41 | a sum over the columns a total assignment uses is the sum over all columns |
| `Assignment.CropKeepsCost` | video-streamer/thirdparty/kuhn_munkres.cpp:14-40 | padding rows and columns cost nothing |
| `Assignment.CropIsFull` | video-streamer/thirdparty/kuhn_munkres.cpp:22-40 | dropping the padding of a total assignment leaves exactly min(rows, columns) assigned rows |
| `Assignment.Completes` | video-streamer/thirdparty/kuhn_munkres.cpp:14-40 | every full assignment of the real matrix extends to a total one of the padded square |
| `KuhnMunkresSolver.KuhnMunkres.TrySimpleCase` | video-streamer/thirdparty/kuhn_munkres.cpp:43-60 | row reduction with greedy starring establishes the phase invariant: non-negative reduced matrix, column potentials zero, stars on zeros and a partial matching, equal to the first-fit pass |
| `KuhnMunkresSolver.KuhnMunkres.CheckIfOptimumIsFound` | video-streamer/thirdparty/kuhn_munkres.cpp:62-75 | covers exactly the starred columns and reports whether every row has a star |
| `HungarianPhase.CoveredLines` | video-streamer/thirdparty/kuhn_munkres.cpp:122-136 | covered rows and columns together are as many as the stars |
| `HungarianPhase.FewLinesCovered` | video-streamer/thirdparty/kuhn_munkres.cpp:77-92 | so fewer than n lines are covered while a star is missing |
| `HungarianPhase.UncoveredCellExists` | video-streamer/thirdparty/kuhn_munkres.cpp:77-92 | while a star is missing, some cell is in no covered row or column |
| `HungarianPhase.StarCoveredOnce` | video-streamer/thirdparty/kuhn_munkres.cpp:128-137 | each star has exactly one of its row and column covered |
| `KuhnMunkresSolver.KuhnMunkres.FindUncoveredMinValPos` | video-streamer/thirdparty/kuhn_munkres.cpp:77-92 | finds an uncovered cell of least value |
| `KuhnMunkresSolver.KuhnMunkres.UpdateDissimilarityMatrix` | video-streamer/thirdparty/kuhn_munkres.cpp:94-102 | adds the value to covered rows and takes it from uncovered columns, nothing else |
| `HungarianPhase.ShiftKeepsPhase` | video-streamer/thirdparty/kuhn_munkres.cpp:94-102 | the update is a change of potentials that keeps the whole phase invariant: non-negative, stars and primes on zeros, covers |
| `KuhnMunkresSolver.KuhnMunkres.FindInRow` | video-streamer/thirdparty/kuhn_munkres.cpp:104-111 | the first column of the row with the mark, -1 exactly when there is none |
| `KuhnMunkresSolver.KuhnMunkres.FindInCol` | video-streamer/thirdparty/kuhn_munkres.cpp:113-120 | the first row of the column with the mark, -1 exactly when there is none |
| `HungarianPhase.PrimeKeepsPhase` | video-streamer/thirdparty/kuhn_munkres.cpp:128-137 | priming a zero beside a star, covering its row and uncovering the star's column keeps the invariant |
| `HungarianPhase.OrderIsShort` | video-streamer/thirdparty/kuhn_munkres.cpp:127-137 | no more rows are primed than there are, and fewer than n while a star is missing, which bounds the rounds of a phase |
| `HungarianPhase.LastPrimeIsReady` | video-streamer/thirdparty/kuhn_munkres.cpp:133-140 | a prime in a row without a star starts an alternating path |
| `HungarianPhase.PathExtends` | video-streamer/thirdparty/kuhn_munkres.cpp:142-149 | the star found in the column has a prime in its row, in another column, made strictly earlier: the search for it never fails and the path has no cycle |
| `HungarianPhase.PathIsShort` | video-streamer/thirdparty/kuhn_munkres.cpp:138-153 | the rows of the path are distinct, so it has at most n of them |
| `KuhnMunkresSolver.PathPointsDistinct` | video-streamer/thirdparty/kuhn_munkres.cpp:140-158 | the cells of the path are pairwise distinct and at most 2n - 1, so they fit the buffer and toggling each once is well defined |
| `KuhnMunkresSolver.KuhnMunkres.FindStar` | video-streamer/thirdparty/kuhn_munkres.cpp:143-144 | finds the row whose star lies in the column of the last prime of the path, -1 exactly when there is none |
| `KuhnMunkresSolver.KuhnMunkres.StepOn` | video-streamer/thirdparty/kuhn_munkres.cpp:144-149 | from that star to the prime of its row: the path stays alternating, one row longer and further back in the order of priming, and the buffer holds exactly its cells |
| `KuhnMunkresSolver.KuhnMunkres.TracePath` | video-streamer/thirdparty/kuhn_munkres.cpp:138-153 | the search ends, with the points of a complete alternating path in the buffer |
| `KuhnMunkresSolver.KuhnMunkres.FlipPath` | video-streamer/thirdparty/kuhn_munkres.cpp:155-163 | toggling the path and erasing the primes leaves exactly the stars of the flipped matching |
| `HungarianPhase.FlipAddsOneStar` | video-streamer/thirdparty/kuhn_munkres.cpp:155-163 | the flipped stars are a matching on zeros with exactly one star more |
| `KuhnMunkresSolver.KuhnMunkres.Augment` | video-streamer/thirdparty/kuhn_munkres.cpp:138-164 | one augmentation adds one star and restores the state between phases |
| `KuhnMunkresSolver.KuhnMunkres.RunPhase` | video-streamer/thirdparty/kuhn_munkres.cpp:127-167 | one phase from rest to rest ends and adds one star |
| `KuhnMunkresSolver.KuhnMunkres.Run` | video-streamer/thirdparty/kuhn_munkres.cpp:122-169 | ends for every matrix, with the working matrix equal to the input less potentials and a star on a zero in every row (greedy: the stars of the first pass) |
| `PoseMatching.Pose.Add` | video-streamer/thirdparty/associative_embedding_decoder.hpp:37-45 | stores the peak in its slot and keeps score sum, mean tag and mean centre exact for the peaks added |
| `PoseMatching.Pose.GetMeanScore` | video-streamer/thirdparty/associative_embedding_decoder.hpp:49 | the mean score of the peaks added |
| `PoseMatching.RunningMean` | video-streamer/thirdparty/associative_embedding_decoder.hpp:37-45 | the running mean update gives the mean of one more value, in real arithmetic |
| `PoseMatching.BuildCosts` | video-streamer/thirdparty/associative_embedding_decoder.cpp:85-115 | the cost matrix: tag differences scaled by relative distance, less the score, square-padded on the right with the large cost, and the tag differences themselves |
| `PoseCosts.CostIsRank` | video-streamer/thirdparty/associative_embedding_decoder.cpp:93-110 | a cost is a hundred times the rounded weight less the score; the weight is the difference of the tags, taken, when it is below the threshold, as many times as the peak is farther from the pose than the nearest one |
| `PoseMatching.PairingIsTotal` | video-streamer/thirdparty/associative_embedding_decoder.cpp:116-127 | the solver's result for this matrix never contains -1 |
| `PoseMatching.SolvePairing` | video-streamer/thirdparty/associative_embedding_decoder.cpp:85-118 | the pairing used is one of least total cost, distinct and without -1 |
| `PoseMatching.PlacePeaks` | video-streamer/thirdparty/associative_embedding_decoder.cpp:118-127 | each peak goes to the paired pose when that exists and its tag is near, else to a new pose |
| `PoseMatching.PlacedIsGood` | video-streamer/thirdparty/associative_embedding_decoder.cpp:118-127 | placing one joint houses each of its peaks exactly once and no two in one pose, whatever the pairing |
| `PoseMatching.MatchJoint` | video-streamer/thirdparty/associative_embedding_decoder.cpp:78-127 | one joint: an optimal pairing from the mean tags and centres of the poses before it decides where each peak goes |
| `PoseGrouping.NextJoint` | video-streamer/thirdparty/associative_embedding_decoder.cpp:60-127 | one joint: every peak opens a pose when there is none; with no peak, or with exactly maxNumPeople poses, nothing changes; else the peaks go where a pairing of least cost with the mean tags and centres of the poses sends them |
| `PoseGrouping.MatchByTag` | video-streamer/thirdparty/associative_embedding_decoder.cpp:55-130 | the whole loop is a run of such steps over the joint order; the poses hold the peaks of its last state, each peak of a joint that was not skipped in exactly one pose, none other, and no two of one joint in one pose |
| `PoseGrouping.GroupingIsSorted` | video-streamer/thirdparty/associative_embedding_decoder.cpp:60-128 | after any number of joints of any such run every peak of the joints not skipped is housed exactly once |
| `PoseGrouping.EarlierHomesCount` | video-streamer/thirdparty/associative_embedding_decoder.cpp:60-128 | the poses there were before a joint are, at any later time, exactly those that hold a peak of an earlier joint: which joints were skipped can be read off the result |
| `PoseGrouping.HousedUnlessFull` | video-streamer/thirdparty/associative_embedding_decoder.cpp:66-80 | a peak ends in no pose when there were exactly maxNumPeople before its joint and in one otherwise, also when there were more |
| `PoseCosts.NearestPeakJoins` | video-streamer/thirdparty/associative_embedding_decoder.cpp:82-127 | with one pose, in every grouping the peak that is nearest to it in tag and place, score counted, joins it if its tag is close, and every other peak opens a pose |
| `PoseCosts.NearOneJoins` | video-streamer/thirdparty/associative_embedding_decoder.cpp:82-127 | an example below the threshold: of two peaks with equally close tags the near one joins the pose though the far one scores higher |
| `PoseGrouping.StepGrows` | video-streamer/thirdparty/associative_embedding_decoder.cpp:66-127 | a step keeps a pose or gives it one peak of the joint, and opens poses with one peak each |
| `PoseGrouping.PoseIsExact` | video-streamer/thirdparty/associative_embedding_decoder.cpp:55-130 | each pose counts at least one valid point, exactly as many as it has filled slots; each filled slot holds the detected peak it stands for and the others are empty |
| `PoseBound.BoundedIffFits` | video-streamer/thirdparty/associative_embedding_decoder.cpp:55-130 | given how many peaks each joint has, maxNumPeople bounds the poses of every frame with these numbers exactly when they fit: either the first joint that has any has just maxNumPeople, or no joint brings the peaks seen past maxNumPeople and, once that many were seen, every later joint has at most one |
| `PoseBound.MisfitOverflows` | video-streamer/thirdparty/associative_embedding_decoder.cpp:60-127 | when the numbers do not fit, there is a frame with them, under the threshold in use and any distance function, whose every grouping ends with too many poses |
| `PoseBound.FittingIsBounded` | video-streamer/thirdparty/associative_embedding_decoder.cpp:60-128 | when the numbers fit, the poses stay within maxNumPeople after every joint of every grouping, whatever the tags, places and threshold |
| `PoseBound.FewPeaksFewPoses` | video-streamer/thirdparty/associative_embedding_decoder.cpp:60-128 | a frame with at most maxNumPeople peaks in all never has more poses than that |
| `PoseBound.RoomIsExact` | video-streamer/thirdparty/associative_embedding_decoder.cpp:78-80 | before a joint, room for all its peaks is the exact condition under which no pairing leads past a limit |
| `PoseBound.ThreePosesForTwo` | video-streamer/thirdparty/associative_embedding_decoder.cpp:66-127 | the overshoot on a frame: two people at most, one peak of the first joint and two of the second with far tags; every grouping ends with a third pose |
| `PoseBound.NearIsMatched` | video-streamer/thirdparty/associative_embedding_decoder.cpp:88-127 | in any pairing of least cost a peak with the tag of a pose, beside peaks whose tags are far from all, gets a pose of its tag |
| `PoseBound.RunExists` | video-streamer/thirdparty/associative_embedding_decoder.cpp:55-130 | every frame has a grouping over any number of joints: no step is ever impossible |
| `Assignment.OptimalExists` | video-streamer/thirdparty/kuhn_munkres.cpp:13-41 | every cost matrix has a cheapest full assignment |
| `Assignment.NoCheaperExchange` | video-streamer/thirdparty/kuhn_munkres.cpp:13-41 | a cheapest assignment gains nothing by moving a row to a free column or by exchanging the columns of two rows |
| `BlockedStage.BlockedSeqPipelineStage.ResetState` | api-gateway/fcgi/asr/python/asr_utils/pipelines.py:24-26 | the state becomes the fresh one |
| `BlockedStage.BlockedSeqPipelineStage.AcceptData` | api-gateway/fcgi/asr/python/asr_utils/pipelines.py:49-56 | the first data brings the left padding, later data is appended |
| `BlockedStage.BlockedSeqPipelineStage.ProcessBlocks` | api-gateway/fcgi/asr/python/asr_utils/rnn_seq_pipeline.py:53-62 | every full window is stepped over in order with the carried state; the skip leaves exactly the rest |
| `BlockedStage.BlockedSeqPipelineStage.ProcessData` | api-gateway/fcgi/asr/python/asr_utils/pipelines.py:39-99 | a call, finishing or not, has the state and output of the model of one call |
| `BlockedStage.BlockedSeqPipelineStage.Finish` | api-gateway/fcgi/asr/python/asr_utils/pipelines.py:58-99 | right padding, alignment, last blocks, crop, fresh state |
| `BlockedPipeline.BlocksOfConcat` | api-gateway/fcgi/asr/python/asr_utils/pipelines.py:79-91 | taking windows from a joined buffer is taking them from the first part and then from its rest with the second |
| `BlockedPipeline.FeedIsBatch` | api-gateway/fcgi/asr/python/asr_utils/pipelines.py:39-99 | after any chunks without finish the stage holds and has emitted what one chunk would have |
| `BlockedPipeline.FlushIsBatch` | api-gateway/fcgi/asr/python/asr_utils/pipelines.py:58-99 | finishing after some windows adds exactly what the finishing call on the whole still misses: alignment does not depend on blocks already taken and is cropped from the last block alone |
| `BlockedPipeline.LeftoverIsAligned` | api-gateway/fcgi/asr/python/asr_utils/pipelines.py:60-66 | when nothing is left to emit there is nothing to crop |
| `BlockedPipeline.ChunkInvariance` | api-gateway/fcgi/asr/python/asr_utils/pipelines.py:39-99 | for every step with carried state and every cut into chunks, the outputs join to that of one finishing call on the whole stream, and the stage ends fresh |
| `SpeechMeaning.CropIsPrefix` | api-gateway/fcgi/asr/python/asr_utils/pipelines.py:95-97 | cropping the alignment takes exactly that many elements off the end of the output and leaves the rest |
| `SpeechMeaning.BlocksScan` | api-gateway/fcgi/asr/python/asr_utils/rnn_seq_pipeline.py:53-85 | for a network that takes its windows place by place, taking a buffer block by block is taking it place by place, with the carried state |
| `SpeechMeaning.RnnIsRecurrence` | api-gateway/fcgi/asr/python/asr_utils/rnn_seq_pipeline.py:17-85 | for every odd context, every stream and every cut of it, frame i of the output is what the plain recurrence over all frames gives for frame i seen with half the context on each side, zeros beyond the ends |
| `SpeechMeaning.AudioBatchFeatures` | api-gateway/fcgi/asr/python/asr_utils/audio_features.py:22-76 | feature frame i is that of the window of samples at i strides, zeros after the end, one for each stride begun past the context |
| `SpeechMeaning.SpeechIsRecurrence` | api-gateway/fcgi/asr/python/asr_utils/deep_speech_seq_pipeline.py:35-48 | both stages, however the audio is cut: the recurrence over the feature frames of all the audio |
| `SpeechPipeline.RnnKeepsFrameCount` | api-gateway/fcgi/asr/python/asr_utils/rnn_seq_pipeline.py:27-33 | for every odd context and every cut of the stream, as many frames out as in, and an output exactly when there was input |
| `SpeechPipeline.BatchFrameCount` | api-gateway/fcgi/asr/python/asr_utils/rnn_seq_pipeline.py:27-33 | any stage whose paddings make up its context and whose step keeps length emits one frame a frame |
| `SpeechPipeline.AlignedPayload` | api-gateway/fcgi/asr/python/asr_utils/pipelines.py:60-66 | the alignment completes whole blocks |
| `SpeechPipeline.AudioProcessBlocks` | api-gateway/fcgi/asr/python/asr_utils/audio_features.py:45-75 | cuts the buffer at the end of the last whole window: the frames are those the windows give one by one, and what comes after the skip is what the windows leave, so the override is a stage like any other |
| `SpeechPipeline.AudioBlocksAreFrames` | api-gateway/fcgi/asr/python/asr_utils/audio_features.py:45-75 | taking all frames of the cut at once equals taking them window by window and leaves the same rest |
| `SpeechPipeline.AudioBatchCount` | api-gateway/fcgi/asr/python/asr_utils/audio_features.py:31-34 | a finished stream of n samples gives one frame for each stride begun past the context |
| `SpeechPipeline.ChainInvariance` | api-gateway/fcgi/asr/python/asr_utils/deep_speech_seq_pipeline.py:46-48 | the two stages chained: any cut of the audio gives the output of one finishing call of both, and both end fresh |
| `SpeechPipeline.SpeechFrameCount` | api-gateway/fcgi/asr/python/asr_utils/deep_speech_seq_pipeline.py:46-48 | both stages together emit that many frames for n samples, however the audio was cut |
| `SpeechPipeline.DeepSpeechSeqPipeline.RecognizeAudio` | api-gateway/fcgi/asr/python/asr_utils/deep_speech_seq_pipeline.py:35-48 | audio at a rate too far off or with several channels is refused with nothing changed; otherwise it goes through the feature stage, the network stage and the decoder, each with what the one before emitted |
| `SpeechPipeline.RecognizeUtterance` | api-gateway/fcgi/asr/python/fcgi_asr.py:292-302 | an utterance fed segment by segment to a fresh pipeline and then finished: the frames the decoder is given join to those of both stages on all of the audio at once, and both stages are fresh again |
| `LinkClustering.ClimbEndsAtRoot` | api-gateway/grpc/ocr.cc:83-96 | climbing parents ends at the root, a key with parent -1 |
| `LinkClustering.CompressionKeepsForest` | api-gateway/grpc/ocr.cc:83-96 | writing the root as parent keeps the forest and every root |
| `LinkClustering.HangingKeepsForest` | api-gateway/grpc/ocr.cc:98-105 | hanging one root under another keeps a forest and merges exactly those two trees |
| `LinkClustering.PixelForest.FindRoot` | api-gateway/grpc/ocr.cc:83-96 | returns the root; only the parent of the pixel asked for can change, to that root |
| `LinkClustering.PixelForest.Join` | api-gateway/grpc/ocr.cc:98-105 | the two partitions become one, all others stay |
| `LinkClustering.MergePartitions` | api-gateway/grpc/ocr.cc:98-105 | if roots partition the pixels by chains of links, then after a join they do so with one more link |
| `TextMask.JoinNeighbours` | api-gateway/grpc/ocr.cc:148-171 | joins one text pixel with exactly the neighbours it holds a link to, each under its own flag |
| `TextMask.MetBeforeCounts` | api-gateway/grpc/ocr.cc:150-162 | the flag of a neighbour is numbered by how many neighbours come before it row by row, the pixel itself not counted |
| `TextMask.LinksOfImage` | api-gateway/grpc/ocr.cc:149-172 | the links of the image are those, and only those, of text pixels to neighbouring text pixels whose own flag is set |
| `TextMask.JoinAll` | api-gateway/grpc/ocr.cc:135-172 | after all pixels the partition is by chains of exactly the thresholded links, in either direction |
| `TextMask.LabelPixels` | api-gateway/grpc/ocr.cc:107-122 | labels are handed out in order of first appearance |
| `TextMask.Masks` | api-gateway/grpc/ocr.cc:107-122 | two text pixels have the same label iff a chain of links joins them; labels are 1 to k, first seen first; other pixels 0 |
| `TextMask.LabellingIsUnique` | api-gateway/grpc/ocr.cc:107-122 | the links determine the label image completely |
| `TextMask.GetMask` | api-gateway/grpc/ocr.cc:124-178 | from score images and thresholds to the label image of the components of the links each pixel holds to its neighbours |
| `OcrPipeline.ClusterText` | api-gateway/grpc/ocr.cc:206-247 | from raw planes to labels: pixel (x, y) is linked to the neighbour at (dx, dy) exactly when both are text and planes 2k and 2k+1 at (x, y) reach the threshold, k being the number of neighbours before that one row by row |
| `Transpose.Transpose4d` | api-gateway/grpc/ocr.cc:27-71 | refuses wrong axes and leaves the data alone; else writes the cells in order to their targets, which for a permutation moves the cell of each index to the permuted index |
| `Transpose.LastWins` | api-gateway/grpc/ocr.cc:54-66 | for any axes, repeated ones included, a position holds the last cell sent there, or zero when none is |
| `Transpose.RoomIsExact` | api-gateway/grpc/ocr.cc:36-66 | no cell is written past the end exactly when the permuted shape is no larger or there is no cell |
| `Transpose.InverseExists` | api-gateway/grpc/ocr.cc:27-71 | every axis permutation has an inverse |
| `Transpose.EveryCellOnce` | api-gateway/grpc/ocr.cc:27-71 | for every axis permutation, each output cell is written by exactly one input cell |
| `Transpose.InverseUndoes` | api-gateway/grpc/ocr.cc:27-71 | transposing by a permutation and then by its inverse gives the input back |
| `Transpose.FlatInjective` | api-gateway/grpc/ocr.cc:50-66 | the flat position determines the index |
| `Transpose.TotalPermuted` | api-gateway/grpc/ocr.cc:36-48 | permuting a shape keeps its size |
| `Transpose.PixelRecord` | api-gateway/grpc/ocr.cc:206-225 | after axes {0,2,3,1} cell p * channels + c is channel c at pixel p |
| `Transpose.Softmax` | api-gateway/grpc/ocr.cc:14-25 | each pair of neighbouring cells is replaced by the pair computed from it |
| `Transpose.SliceSecondChannel` | api-gateway/grpc/ocr.cc:73-81 | keeps every second cell |
| `Transpose.ScorePixels` | api-gateway/grpc/ocr.cc:206-240 | cell p * (channels/2) + k comes from channels 2k and 2k+1 at pixel p |
| `CtcText.RecognizeText` | api-gateway/grpc/ocr.cc:377-401 | the automaton computes the best symbol of each frame with repeats merged first and blanks dropped after |
| `CtcText.MaxElement` | api-gateway/grpc/ocr.cc:386-388 | the first position of the greatest score |
| `CtcText.ReadSymbol` | api-gateway/grpc/ocr.cc:390-400 | one step keeps the text equal to the collapsed symbols read |
| `CtcText.CollapseNext` | api-gateway/grpc/ocr.cc:390-400 | one more symbol adds itself unless it is blank or repeats the frame before |
| `CtcText.Decode` | api-gateway/fcgi/handwritten/python/fcgi_codec.py:29-33 | the index loop computes the same collapsed text with blank 0 |
| `CtcText.TextDecode` | api-gateway/fcgi/ppocr/python/fcgi_ppocr.py:249-266 | so does the two-skip loop, without merging it drops blanks only; the mean confidence is that of exactly the frames kept |
| `CtcText.KeptIsText` | api-gateway/fcgi/ppocr/python/fcgi_ppocr.py:254-261 | the symbols of the frames kept are the decoded text |
| `CtcText.LayoutDecodes` | api-gateway/grpc/ocr.cc:377-401 | a text laid out with each letter held and blanks between equal neighbours decodes to itself |
| `CtcText.DecodesIffLayout` | api-gateway/grpc/ocr.cc:377-401 | frames decode to a text iff they are such a layout of it |
| `PhotoTables.PhotoAddIsSound` | smart-photo/db.cpp:212-250 | a new photo row: unique paths, no dangling link, exactly one path more |
| `PhotoTables.PhotoRemoveIsSound` | smart-photo/db.cpp:569-591 | removing a path removes it and its links and no other path |
| `PhotoTables.PhotoMoveIsSound` | smart-photo/db.cpp:593-616 | fails exactly when both paths exist and differ; else renames and touches nothing else, so rows keep their ids and links |
| `PhotoTables.ObjectAddIsSound` | smart-photo/db.cpp:280-337 | finds or adds the object of that name and keeps the others |
| `PhotoTables.RestIsSound` | smart-photo/db.cpp:132-182 | the other table operations keep unique paths and complete links |
| `PhotoTables.ListingsAreConverse` | smart-photo/db.cpp:516-566 | photos of a person and persons of a photo agree with multiplicities; so do the listings by class |
| `PhotoTables.StorePhotoMeans` | smart-photo/smart_photo.cpp:252-273 | storing a scanned photo: off the queue, one row, exactly its labels and persons listed, no other listing changed |
| `PhotoTables.StoreLabelsLists` | smart-photo/smart_photo.cpp:590-600 | each object is listed for the photo as often as its name occurs among the labels |
| `PhotoTables.StoreFacesLists` | smart-photo/smart_photo.cpp:602-637 | known faces link their persons, unknown faces get new ones, each once |
| `PhotoTables.NewPersonsHoldFaces` | smart-photo/smart_photo.cpp:602-637 | known persons stay as they are, and there is one new person for each face no one matches, with the embedding of that face |
| `PhotoTables.FacesAreKnownNextTime` | smart-photo/smart_photo.cpp:602-637 | faces once stored are known: the same faces again add no person |
| `PhotoTables.QueuedAndEmptied` | smart-photo/db.cpp:672-693 | queueing adds one path and touches no photo; removing everything leaves no row in any table |
| `PhotoTables.PhotoRemoveLists` | smart-photo/db.cpp:569-591 | a removed photo lists nothing, every other photo what it did |
| `PhotoTables.PhotoMoveLists` | smart-photo/db.cpp:593-616 | a renamed photo lists under its new path what it listed before, every other photo what it did |
| `ScanProtocol.StepKeepsInv` | smart-photo/smart_photo.cpp:639-705 | every locked section keeps the tables sound and the protocol invariant |
| `ScanProtocol.RunsKeepInv` | smart-photo/smart_photo.cpp:136-273 | over every interleaving of worker and client sections |
| `ScanProtocol.QueueChangesOnlySo` | smart-photo/smart_photo.cpp:639-705 | a path leaves the queue only where its photo row is made, where its image cannot be loaded, or at remove-all; it joins only by being added |
| `ScanProtocol.NothingIsLost` | smart-photo/smart_photo.cpp:639-743 | between a moment when a path is queued and one when it is not, a step took it off for an allowed reason, across any stops and restarts |
| `ScanProtocol.ScanCompletes` | smart-photo/smart_photo.cpp:639-743 | when some later scan ends unstopped every path queued before was stored, unloadable or removed with all |
| `ScanProtocol.WorkerStepShrinks` | smart-photo/smart_photo.cpp:639-705 | each section of the worker lowers a measure of what is left |
| `ScanProtocol.QuietWorkerEnds` | smart-photo/smart_photo.cpp:639-705 | from any reachable state a worker left alone ends within that measure; if it was not stopped before, its end leaves an empty queue and a cleared flag |
| `ScanProtocol.WorkerCanStep` | smart-photo/smart_photo.cpp:639-705 | until it has ended the worker can take a section |
| `ScanProtocol.QuietScanHandlesAll` | smart-photo/smart_photo.cpp:639-705 | a scan left alone until its worker can do nothing more has ended with an empty queue, and every path queued at the beginning was stored with a photo row or could not be loaded |
| `ScanProtocol.ScanIsOn` | smart-photo/smart_photo.cpp:707-722 | after a request to scan a scan is running with a worker, a new one if there was none |
| `ScanProtocol.RequestedScanHandlesAll` | smart-photo/smart_photo.cpp:639-722 | from the request: with only the worker at work after it, once that can do nothing more the queue is empty and every path queued at the request was stored or could not be loaded |
| `ScanProtocol.AddedIsHandled` | smart-photo/smart_photo.cpp:206-214 | a photo added before a request to scan has left the queue for an allowed reason when the worker can do nothing more |
| `ScanProtocol.StopTakesEffect` | smart-photo/smart_photo.cpp:724-743 | a stop that finds a scan running returns after at most the one section the worker is about to take, with the worker ended |
| `ScanProtocol.WaitSeesTheEnd` | smart-photo/smart_photo.cpp:745-763 | a wait that finds a scan running returns when the queue is empty and every path queued at the wait was stored or could not be loaded |
| `ScanProtocol.ListIsWalked` | smart-photo/smart_photo.cpp:652-697 | the worker looks at every photo of its list in order, also at one no longer queued |
| `SmartPhoto.SmartPhotoLibrary.ThreadStarts` | smart-photo/smart_photo.cpp:639-660 | the thread's first section is the protocol's start step |
| `SmartPhoto.SmartPhotoLibrary.PhotoUnloadable` | smart-photo/smart_photo.cpp:252-273 | an image that cannot be read: the protocol step that drops it from the queue |
| `SmartPhoto.SmartPhotoLibrary.PhotoInferred` | smart-photo/smart_photo.cpp:252-273 | the section after inference: the protocol step that stores the photo |
| `SmartPhoto.SmartPhotoLibrary.AddPhoto` | smart-photo/smart_photo.cpp:136-154 | a path that does not resolve is refused with nothing changed, any other joins the queue by the protocol's add step |
| `SmartPhoto.SmartPhotoLibrary.RemovePhoto` | smart-photo/smart_photo.cpp:216-226 | removing a file is the protocol's step, and the path has no row after it |
| `SmartPhoto.SmartPhotoLibrary.RemoveAllPhotos` | smart-photo/smart_photo.cpp:228-238 | removing everything is the protocol's step and leaves no path, object, person or queued file |
| `SmartPhoto.SmartPhotoLibrary.MovePhoto` | smart-photo/smart_photo.cpp:240-250 | moving is the protocol's step; it returns -1 exactly when both paths exist and differ, and else renames the path |
| `SmartPhoto.SmartPhotoLibrary.StartScan` | smart-photo/smart_photo.cpp:707-722 | after it a scan is running with a worker, a new one unless there was one |
| `SmartPhoto.SmartPhotoLibrary.StopScan` | smart-photo/smart_photo.cpp:724-743 | clears the flag and waits for the worker; -1 and no wait when none is running |
| `SmartPhoto.SmartPhotoLibrary.WaitScan` | smart-photo/smart_photo.cpp:745-762 | waits for the worker without clearing the flag; -1 and no wait when none is running |
| `SmartPhoto.SmartPhotoLibrary.ScanFileBuffer` | smart-photo/smart_photo.cpp:965-994 | a buffer that is no image is refused with nothing changed, any other photo is stored by the protocol's step |
| `SmartPhoto.SmartPhotoLibrary.ObjectToDb` | smart-photo/smart_photo.cpp:590-600 | the loop over labels computes the specified tables |
| `SmartPhoto.SmartPhotoLibrary.FaceIdToDb` | smart-photo/smart_photo.cpp:602-637 | the loops over faces compute the specified tables |
| `Nms.SortIndexes` | api-gateway/fcgi/face-detection-onnx/cpp/fcgi_face_detection_onnx.cpp:46-53 | a stable ascending order of all indices |
| `Nms.UnionPositive` | api-gateway/fcgi/face-detection-onnx/cpp/fcgi_face_detection_onnx.cpp:94-107 | for boxes of positive area the overlap is within both and the union positive, so the ratio is defined |
| `Nms.IntersectionIsCommonArea` | api-gateway/fcgi/face-detection-onnx/cpp/fcgi_face_detection_onnx.cpp:93-101 | the intersection is the area of the box of the points in both boxes, 0 when they have none in common |
| `Nms.PassesIff` | api-gateway/fcgi/face-detection-onnx/cpp/fcgi_face_detection_onnx.cpp:102-109 | a candidate stays exactly when the common area is at most the threshold times the area of both together, and never when that area is 0 |
| `Nms.OrderIsUnique` | api-gateway/fcgi/face-detection-onnx/cpp/fcgi_face_detection_onnx.cpp:46-53 | a stable ascending order of all indices is unique, hence so is the result of the suppression |
| `Nms.Select` | api-gateway/fcgi/face-detection-onnx/cpp/fcgi_face_detection_onnx.cpp:77-115 | the selecting loop equals the recursive greedy choice |
| `Nms.Suppress` | api-gateway/fcgi/face-detection-onnx/cpp/fcgi_face_detection_onnx.cpp:55-118 | the result is the recursive greedy choice on the best candidates of the stable order and has all suppression properties |
| `Nms.GreedySuppresses` | api-gateway/fcgi/face-detection-onnx/cpp/fcgi_face_detection_onnx.cpp:77-115 | kept indices are distinct candidates, scores do not increase, no two kept overlap beyond the threshold, and every candidate dropped overlaps a kept one of at least its score beyond it |
| `Base64.EncodeBase` | api-gateway/fcgi/utils/cpp/fcgi_utils.cpp:6-43 | writes groups of four letters, a break after each 76 and the padded group, which appears also when no byte is left |
| `Base64.LettersAreStandard` | api-gateway/fcgi/utils/cpp/fcgi_utils.cpp:7 | the alphabet of RFC 4648 section 4 in its order |
| `Base64.StandardIsValid` | api-gateway/fcgi/utils/cpp/fcgi_utils.cpp:46-59 | the decoding table undoes the encoding table |
| `Base64.SextetsHoldTheBits` | api-gateway/fcgi/utils/cpp/fcgi_utils.cpp:15-18 | the four numbers of a group hold the 24 bits most significant first |
| `Base64.TailIsPadded` | api-gateway/fcgi/utils/cpp/fcgi_utils.cpp:27-40 | the last group of one or two bytes is that of the data filled up with zero bits, with = for each letter that holds none of it |
| `Base64.DecodeBase` | api-gateway/fcgi/utils/cpp/fcgi_utils.cpp:45-90 | the loop that skips breaks while filling groups equals stripping all breaks first and decoding whole groups; what is left over at the end may be anything |
| `Base64.RoundTrip` | api-gateway/fcgi/utils/cpp/fcgi_utils.cpp:6-90 | decoding an encoding gives the data, followed by the byte after it when the length is a multiple of three |
| `Base64.ExactIff` | api-gateway/fcgi/utils/cpp/fcgi_utils.cpp:27-40 | the data comes back unchanged iff its length is no multiple of three; it always comes back as a prefix |
| `Base64.EncodedLines` | api-gateway/fcgi/utils/cpp/fcgi_utils.cpp:20-24 | CR LF stands at every 77th and 78th place and nowhere else, so no line is longer than 76 |
| `FormData.DeData` | api-gateway/fcgi/utils/cpp/fcgi_utils.cpp:119-134 | the loop with its two skips equals the recursive reading of escapes |
| `FormData.EscapeRoundTrip` | api-gateway/fcgi/utils/cpp/fcgi_utils.cpp:107-134 | every percent-encoding of a text, literal or escaped character by character in either case, is read back as the text |
| `FormData.CharDecIs` | api-gateway/fcgi/utils/cpp/fcgi_utils.cpp:107-117 | exactly the hexadecimal digits of either case have a value, their place |
| `FormData.WrongDigits` | api-gateway/fcgi/utils/cpp/fcgi_utils.cpp:119-135 | what an escape with a wrong digit is read as |
| `FormData.Find` | api-gateway/fcgi/utils/cpp/fcgi_utils.cpp:142 | the first occurrence, none exactly when there is none |
| `FormData.GetDataFinds` | api-gateway/fcgi/utils/cpp/fcgi_utils.cpp:137-155 | the value of a field is returned whenever its key does not occur before the field |
| `FormData.GetDataFindsIff` | api-gateway/fcgi/utils/cpp/fcgi_utils.cpp:137-155 | exactly when a field comes back whatever its value: its key has no occurrence that starts before the field, which what comes before and the name alone decide |
| `FormData.NoKeyNoValue` | api-gateway/fcgi/utils/cpp/fcgi_utils.cpp:137-145 | without the key the value is empty |
| `FormData.AmpersandInName` | api-gateway/fcgi/utils/cpp/fcgi_utils.cpp:147-154 | for a name with an ampersand the value is all that follows the key |
| `FormData.EarlierKeyHides` | api-gateway/fcgi/utils/cpp/fcgi_utils.cpp:141-154 | when the key occurs earlier, some value of the field is not what is returned |
| `FormData.LongerNameHides` | api-gateway/fcgi/utils/cpp/fcgi_utils.cpp:141-142 | an input on which a field with a longer name hides the field asked for |
| `FormData.UploadRoundTrip` | api-gateway/fcgi/utils/cpp/fcgi_utils.cpp:45-155 | a file encoded, escaped in any style and put in a form after fields that do not hold its key comes back through field, unescape and decode |
| `Vad.VadCollector` | api-gateway/fcgi/asr/python/fcgi_asr.py:117-156 | what is yielded is the segmentation of the frames accepted: each utterance begins with the ring at the first frame that makes it loud and ends with a marker at the first that makes it hushed |
| `Vad.CountOfLast` | api-gateway/fcgi/asr/python/fcgi_asr.py:140-153 | counting through the ring gives the number of the last frames that are voiced, or are not |
| `Vad.SegmentationIsUnique` | api-gateway/fcgi/asr/python/fcgi_asr.py:123-156 | frames and tests determine the utterances |
| `Vad.OutputIsUnique` | api-gateway/fcgi/asr/python/fcgi_asr.py:123-156 | hence the frames accepted determine the output |
| `Vad.YieldsInOrder` | api-gateway/fcgi/asr/python/fcgi_asr.py:140-156 | the frames yielded are input frames in increasing order, none twice |
| `Vad.YieldedInOnePiece` | api-gateway/fcgi/asr/python/fcgi_asr.py:142-156 | each utterance is yielded frame by frame from some place on, a marker right after it if it is closed, and the next one right after that |
| `Vad.TwelveOfFifteen` | api-gateway/fcgi/asr/python/fcgi_asr.py:117-120 | with the settings in use a flush has at most 15 frames, at least 12 of them voiced, and a marker comes after at least 12 unvoiced among the last 15 or fewer since the trigger |
| `Backoff.PolicyDaemon.GotoSleep` | inference-runtime/runtime_service/src/daemon_policy.cpp:329-363 | one round, with the count limit of the interval in force, turns n quiet rounds since a reset into n + 1, or none: the closed form of the back-off is kept |
| `Backoff.PolicyDaemon.Run` | inference-runtime/runtime_service/src/daemon_policy.cpp:425-465 | after any rounds the state is the closed form of the quiet streak they end in |
| `Backoff.OnALevel` | inference-runtime/runtime_service/src/daemon_policy.cpp:329-346 | only seven intervals occur and the count never passes the limit of the interval |
| `Backoff.LongestIff` | inference-runtime/runtime_service/src/daemon_policy.cpp:336-341 | the longest interval holds exactly after 155 or more quiet rounds, the shortest up to 120 |
| `Backoff.IdlenessSettles` | inference-runtime/runtime_service/src/daemon_policy.cpp:329-363 | from any past, 155 idle rounds reach the longest interval, and more keep it |
| `Backoff.ResetEndsStreak` | inference-runtime/runtime_service/src/daemon_policy.cpp:333-335 | a load above the limit in force, or a wakeup, returns to the shortest interval and count 0 |

## Left out

- Floating point: rounding, infinities, NaN and the largest-float sentinels of the solver's minimum search and of the distance minimum; costs, scores, areas and means are exact reals.
- Machine integer widths: counters and lengths do not wrap around; only the byte of `deData` does.
- Nms.Suppress: needs at least one box, because for none the source's count of candidates to drop wraps around.
- Base64.EncodeBase: bit masks and shifts are written as quotients and remainders; the byte past the end of the data is a parameter.
- Base64.DecodeBase: demands that the characters it looks up lie inside the decoding table, past whose end the source reads without a check.
- FormData.DeData: a percent sign as the last character is excluded, since the source then reads past the terminator.
- Transpose.Transpose4d: demands four dimensions, a vector of the shape's size and room for the permuted shape, without which the source reads or writes past a vector's end.
- CtcText.RecognizeText: demands a whole number of frames, as the source's loop does to end.
- PoseGrouping.MatchByTag: promises no bound on the number of poses by `maxNumPeople`; it holds exactly under the condition of `PoseBound.BoundedIffFits`.
- The search for peaks in the heat maps: the peaks are data here, of any number; `findPeaks` delivers at most `maxNumPeople` for a joint.
- SpeechPipeline.DeepSpeechSeqPipeline.RecognizeAudio: the beam search of the decoder stage is a function given to the pipeline.
- BlockedStage.BlockedSeqPipelineStage.ProcessBlocks: the step does not see the `finish` flag, which the stages that exist ignore.
- Spectrum, cepstrum and network computations: foreign code, kept as uninterpreted functions.
- ScanProtocol.NothingIsLost: one client at a time, as the request loop has it, and database calls that succeed; failing statements are not modelled.
- ScanProtocol.QuietWorkerEnds: fairness is not modelled; it speaks of worker sections taken, not of time.
- The class and classification tables, release of the library handle and the directory walk.
- KuhnMunkresSolver.KuhnMunkres.Run: the rounds of a phase, the path search, the flip and the priming of its inner loop are separate methods here, with the buffers they share as fields.
- Backoff.PolicyDaemon.GotoSleep: signal and promise mechanics; whether a sleep was cut short is an input.
- Rectangles from label images, cropping, and all other image operations after the masks.
- `decodeImageByJoin` of the Python text detector, which walks a different neighbourhood; the C++ relation is the one modelled.
- Health checks, shared memory, plugin order, gRPC and FastCGI plumbing, logging and model loading: input and output only.
