# SmartRedis client protocol: a verified model

SmartRedis clients exchange *DataSets* through a shared key-value store. A DataSet is stored as one
metadata hash plus one key per tensor; it is written command by command while other clients poll for a
`.COMPLETE` field and read, and aggregation lists collect the keys of stored DataSets. This project models
that protocol, the byte format of the metadata it stores, and a few parsers and loops of the same client,
and proves what they keep over every input, every run and every interleaving.

`dafny verify dfyconfig.toml` checks everything.

## How it is organised

| file | what it models |
|---|---|
| `Basics.dfy` | bytes, results, the searches of `std::string`, iteration of an unordered map in any order |
| `MetadataBuffer.dfy` | the string and scalar codecs of metadata fields, in-place copies and cursor loops included |
| `Metadata.dfy` | fields, their place in a Redis hash, DataSets as values |
| `DatasetBuilding.dfy` | the calls that build a DataSet in memory, and which of them keep it storable |
| `Keys.dfy` | dataset, tensor, metadata and list keys; names from list entries; hash tags |
| `Store.dfy` | the server: a map from keys to hash, tensor or list, one atomic command at a time |
| `DatasetCommands.dfy` | the command lists of `put_dataset` and `copy_dataset`, state by state |
| `DatasetReads.dfy` | what reading returns |
| `Interleaving.dfy` | a writer (put or copy), a polling reader and any other clients, interleaved command by command |
| `DatasetOperations.dfy` | copy, rename, delete |
| `DatasetFailures.dfy` | exactly when copy, rename and delete fail, for every store, and what they leave then |
| `DatasetCopies.dfy` | copies between any two keys, shared ones included |
| `AggregationLists.dfy` | the list operations and the map of sequences they implement |
| `ListInterleaving.dfy` | one renaming of a list, interleaved with other clients that push to it |
| `ListReads.dfy` | the three-pass list read over two pipelines |
| `Client.dfy` | the `Client` and its server as objects, every method proved against the files above |
| `Prefixes.dfy` | the SSKEYIN splitter and the active data source |
| `ModelChunks.dfy` | splitting a model into segments and putting them together again |
| `Address.dfy` | the two node-address parsers |
| `ClusterInfo.dfy` | the CLUSTER INFO parser |
| `CRange.dfy` | the C wrapper that fills slots with a list range |

## What is assumed of the outside

- Tensor keys hold tensors of the eight types that the client can name, with as much data as their shape says.
- The server executes a command atomically. A command on a key of another type is answered with an error
  and changes nothing; this includes AI.TENSORSET on a key that holds no tensor. DEL removes keys of any
  type. LRANGE is the slice that `include/client.h:1291-1307` documents.
- `run_in_pipeline` executes its list in order on one connection, runs all of it, and throws afterwards if
  some reply is an error; `run_via_unordered_pipelines` answers command i in reply i
  (`include/redisserver.h:145-160`, `include/redisserver.h:556-563`).
- HGETALL and the iteration of a DataSet's fields and tensors come in an arbitrary order. No theorem
  depends on which.
- `size_t` is a 64-bit little-endian word and strings in memory are shorter than 2^64 bytes.

The theorems name the side conditions the code needs, and where one is needed there is a theorem with the
exact condition. Prefixes hold no `{`. Two datasets are told apart unless they are *entangled*: same prefix,
and one name is the other or continues it with `}.`. No tensor is called `meta`, because its key would be the
metadata key. No user field is called `.COMPLETE` or `.tensor_names`.

## What came out

The main guarantee holds: from a clear start, a reader whose poll succeeds reads exactly the DataSet the
writer placed or copied there, in every interleaving. The work also found places where the
code does less than one would expect. The model keeps the code as it is, and each place has its exact
condition or a concrete family of inputs:

- Over an already acknowledged DataSet the guarantee fails: a reader can get a key error, or the old fields
  with the new tensors (`Interleaving.SafeIffStartsClear`, `Interleaving.TornRead`).
- A placement whose tensor command fails throws, but its acknowledgement is set all the same
  (`DatasetCommands.PutAcksAnyway`); it is truthful exactly when no tensor key was taken by another type and
  no tensor is called `meta` (`DatasetCommands.PutWholeIff`).
- The tensor constructor reserves the name `.meta`, but the name that collides with the metadata is `meta`
  (`Keys.ReservedNameMisses`); placing a DataSet with such a tensor always fails (`DatasetCommands.PutFailsIff`).
- `copy_dataset` writes tensors before it deletes the old metadata, so that copying over a complete DataSet
  makes its acknowledgement untruthful unless the shared tensors are equal (`DatasetCommands.CopyOverExisting`).
- `copy_dataset` between entangled names can report success with a wrong tensor: a tensor key that both sides
  use may be overwritten before it is fetched (`DatasetCopies.CopyReadsIff`, `DatasetCopies.ContinuedCopyLoses`).
- `rename_dataset` onto the same resolved key destroys the DataSet, and onto a key that shares a tensor or
  metadata key with it destroys a part (`DatasetOperations.RenameMovesIff`).
- Overwriting and then deleting leaves the tensors that only the old DataSet had
  (`DatasetOperations.OverwriteLeavesOrphans`).
- `copy_list` deletes under the get prefix and pushes under the put prefix, so that with differing prefixes
  it may append instead of replace, the list the client reads is gone, and `rename_list` can lose the list
  (`AggregationLists.CopyListReplacesIff`, `AggregationLists.RenameListMovesIff`).
- `rename_list` loses what other clients push to the source while it runs (`ListInterleaving.RenameAccountsForAll`).
- The list read returns an empty DataSet for an entry whose DataSet is gone, where `get_dataset` throws
  (`ListReads.EntryIsDatasetIff`).
- `add_tensor` on a DataSet whose name list has become a scalar field throws and keeps the tensor all the same
  (`DatasetBuilding.AddTensorSucceedsIff`).
- The check for empty names in list entries never fires (`Keys.EmptyNameAccepted`).
- The hash tag the cluster client computes differs from the server's for some keys
  (`Keys.ClientTagMatchesServer`).
- A name with `}.` can make a tensor key collide with another DataSet's metadata key; the exact conditions are
  `Keys.SpacesApartIff` and `Keys.MetaKeyHitIff`.
- `get_model` never advances the offset of its copy loop (`src/cpp/client.cpp:837-839`), although the comment
  at line 828 says that the segments are concatenated; the result is right exactly when at most one segment
  is not empty (`ModelChunks.AsWrittenIff`).
- The C range wrapper refuses the whole list, 0 to -1, unless the list is empty (`CRange.DeliveredIff`).

## Model

| member | source | states |
|---|---|---|
| Interleaving.ReaderSeesWholeDataset | src/cpp/client.cpp:158-256 | in every interleaving of one writer, by put or by the commands a copy sends, one reader's poll and read, and any foreign commands, from a clear start: a read that completes returns exactly the dataset placed, and a successful poll implies that it is wholly stored |
| Interleaving.SafeIffStartsClear | src/cpp/client.cpp:1193-1209 | all completed reads of all runs return the dataset placed if and only if the start is clear: no acknowledgement, and for a put no other type at a tensor key (a copy stops at its first failing tensor, a put goes on) |
| Interleaving.PollThrowsIff | src/cpp/client.cpp:1193-1209 | a poll throws in some run if and only if another type holds the metadata key at the start |
| Interleaving.WrongRead | src/cpp/client.cpp:158-210 | every start that is not clear has a run whose completed read is something else |
| Interleaving.ReaderAlone | src/cpp/client.cpp:171-210 | a reader that finds an acknowledgement and is left alone ends, step by step, with what the plain read of the same store gives, errors included |
| Interleaving.NeverRead | src/cpp/client.cpp:158-210 | if at the start another type holds one of the tensor keys, no run ends with the reader holding the dataset |
| Interleaving.TornRead | src/cpp/client.cpp:171-210 | over a complete older dataset with the same tensor names, some run returns the old fields with the new tensors |
| Interleaving.ReaderCanFinishIff | src/cpp/client.cpp:158-210 | some run ends with the reader holding the dataset, whatever was stored before, if and only if no tensor key is taken by another type |
| Interleaving.Invariant | src/cpp/client.cpp:1116-1123 | the inductive invariant of all runs: the dataset's keys hold what the commands sent so far put there, and a reader past its poll holds only parts of the dataset placed |
| Interleaving.AckMeansSent | src/cpp/client.cpp:1116-1123 | in every interleaving the acknowledgement is visible exactly after the writer's last command, and then the dataset is whole |
| Interleaving.OtherDatasetIsForeignIff | src/cpp/client.cpp:1989-2029 | for prefixes without `{`, all commands that stay on another dataset's keys leave this dataset's keys alone if and only if the two are not entangled |
| Interleaving.OtherWriterIsForeign | src/cpp/client.cpp:158-256 | every command of another dataset's placement or copy leaves this dataset's keys alone |
| Interleaving.AckComesLast | src/cpp/client.cpp:2100-2105 | put or copy, the acknowledgement appears with the last command and not before |
| Interleaving.ReadFindsNothing | src/cpp/client.cpp:171-182 | with an acknowledgement at the start, some run ends in a key error after a successful poll |
| DatasetCommands.PutStates | src/cpp/client.cpp:2055-2105 | the metadata key and every tensor key after each prefix of the placement's commands |
| DatasetCommands.PutStores | src/cpp/client.cpp:158-168 | a finished placement stores fields, acknowledgement and tensors, for every order of sending, and every other key keeps its value |
| DatasetCommands.StoredLayout | src/cpp/client.cpp:2055-2105 | a dataset is wholly stored exactly when the hash under its key with `.meta` holds the serialization of each field, `1` under `.COMPLETE` and nothing else, and each tensor is under its key with a dot and its name |
| DatasetCommands.PutAckComesLast | src/cpp/client.cpp:158-168 | over any older state, from the first command on the acknowledgement shows after the last command and not before |
| DatasetCommands.PutAckDiscipline | src/cpp/client.cpp:158-168 | from the first command on, an acknowledgement always means the whole new dataset if and only if every tensor key was free for a tensor and no tensor is called `meta` |
| DatasetCommands.PutWholeIff | src/cpp/client.cpp:158-168 | a finished placement has stored the whole dataset if and only if every tensor key was free for a tensor and no tensor is called `meta`, and if and only if no command failed |
| DatasetCommands.PutFailsIff | src/cpp/client.cpp:2084-2096 | a placement is answered with an error if and only if some tensor key holds something that is not a tensor, or a tensor is called `meta` |
| DatasetCommands.PutAcksAnyway | src/cpp/client.cpp:2100-2105 | the acknowledgement is set even when a tensor command failed and the call throws |
| DatasetCommands.CopyStates | src/cpp/client.cpp:246-256 | the destination's keys after each prefix of the commands a copy sends, tensors first |
| DatasetCommands.CopyAckDiscipline | src/cpp/client.cpp:246-256 | copying to a destination without acknowledgement: none appears before the copy is whole, wherever the copy stops |
| DatasetCommands.CopyOverExisting | src/cpp/client.cpp:246-256 | copying over a complete dataset: its acknowledgement stays truthful before the end if and only if every copied tensor that shares a name with one of its tensors is equal to it |
| DatasetReads.StoredReads | src/cpp/client.cpp:171-210 | a wholly stored dataset reads back as itself |
| DatasetReads.ReadIsStored | src/cpp/client.cpp:171-210 | whatever a read returns is in the store: the decoded hash, distinct tensor names, the tensors under their keys, all constructible |
| DatasetReads.ReadDependsOnSpace | src/cpp/client.cpp:171-210 | a read depends on nothing but the keys that continue the dataset key with a dot |
| DatasetReads.ReadSucceedsIff | src/cpp/client.cpp:171-210 | a read succeeds if and only if the metadata is there and decodes, its list is one of distinct strings, and every listed tensor is there and can be constructed; a missing dataset, and nothing else, is a key error |
| DatasetReads.AddTensorsIff | src/cpp/tensorpack.cpp:64-130 | a pack of fetched tensors can be built if and only if the names are distinct and every tensor can be constructed under its name |
| DatasetReads.AddTensorsMeaning | src/cpp/tensorpack.cpp:64-130 | such a pack maps each name to the tensor fetched for it and holds no other |
| DatasetReads.PutThenGet | src/cpp/client.cpp:158-210 | put and then get returns the same fields and tensors through the field codec, for every order of sending and every order of the HGETALL reply, without the acknowledgement among the fields |
| DatasetBuilding.OpKeepsIff | src/cpp/dataset.cpp:53-93 | a call on a consistent dataset, failing or not, keeps it consistent if and only if it does not reach an internal field in the ways listed and does not add a constructible tensor called `meta` |
| DatasetBuilding.RunKeepsConsistent | src/cpp/metadata.cpp:113-185 | every run of building calls that avoids the reserved names ends with a name list that matches the tensors and with storable fields |
| DatasetBuilding.FieldsAreTold | src/cpp/metadata.cpp:110-185 | after every run of calls, failing ones included, each field but the internal list has the type of the first call for it since it was last cleared and the values of the calls of that type, in call order; told from the list of calls alone |
| DatasetBuilding.TensorsAreTold | src/cpp/dataset.cpp:53-64 | after every run the tensors are those that some call could construct, each with the value of the first such call |
| DatasetBuilding.NamesAreTold | src/cpp/dataset.cpp:53-93 | after every run that avoids the reserved names, the field `.tensor_names` lists the tensors in the order they were added |
| DatasetBuilding.CallSucceedsIff | src/cpp/metadata.cpp:113-185 | which call succeeds, told from the calls before it: a new tensor name that can be constructed, a text for a field that is none or of strings, a word for a field that is none or of its type |
| DatasetBuilding.AddTensorSucceedsIff | src/cpp/dataset.cpp:53-64 | on any dataset, `add_tensor` succeeds if and only if the name is new, not empty and not `.meta`, there is a dimension and none is zero, and the name list is no scalar field; in that last case the tensor stays although the call throws |
| DatasetBuilding.BuiltPutGet | src/cpp/dataset.cpp:53-93 | what such a run built comes back from the store for every order of sending: each field with the values of the calls that made it, each tensor with the value of the call that added it, the names in call order, all told from the list of calls |
| DatasetBuilding.DataSetObject.constructor | src/cpp/dataset.cpp:38-43 | a new dataset has its name, no field and no tensor |
| DatasetBuilding.DataSetObject.Add | src/cpp/dataset.cpp:53-64 | `add_tensor` against the call's specification: a repeated name, a tensor that cannot be constructed, and a name list that is no string field |
| DatasetBuilding.DataSetObject.CheckInputs | src/cpp/tensorbase.cpp:194-224 | the constructor's checks accept exactly the tensors with a name other than empty and `.meta`, at least one dimension, and no zero dimension |
| DatasetBuilding.DataSetObject.AddMeta | src/cpp/metadata.cpp:165-185 | `add_string` against its specification |
| DatasetBuilding.DataSetObject.AddMetaWord | src/cpp/metadata.cpp:113-160 | `add_scalar` against its specification, the empty field it may leave behind included |
| DatasetBuilding.DataSetObject.Clear | src/cpp/metadata.cpp:366-373 | `clear_field` against its specification |
| DatasetCopies.CopyReadsIff | src/cpp/client.cpp:225-257 | for any two dataset keys, after a successful copy: the destination reads as the source under its new name if and only if no tensor, in listed order, is overwritten by a different one before it is fetched; it has the source's field bytes and the acknowledgement in any case, and no key outside it changes |
| DatasetCopies.SourceReadsIff | src/cpp/client.cpp:225-257 | the source reads as before if and only if none of its tensor keys becomes the destination's metadata key or gets a different tensor |
| DatasetCopies.FetchesAllIff | src/cpp/redis.cpp:271-296 | the loop fetches every original tensor if and only if none is overwritten by a different one in time |
| DatasetCopies.CopyToSelf | src/cpp/client.cpp:225-257 | a copy onto the dataset's own key succeeds and leaves it readable as it was |
| DatasetCopies.ContinuedCopyLoses | src/cpp/client.cpp:225-257 | for every name that continues the source's with `}.` and every two different tensors under the names that then meet, a store from which the copy reports success and the destination does not read as the source |
| DatasetOperations.CopyApart | src/cpp/client.cpp:225-257 | to keys the source does not use, a successful copy stores the whole dataset, both read as they should, and every other key keeps its value |
| DatasetOperations.CopyAnywhere | src/cpp/client.cpp:225-257 | with free tensor keys a copy succeeds and leaves the source's metadata readable even where the two share keys, and changes no other key |
| DatasetOperations.ReadDependsOnOwned | src/cpp/client.cpp:171-210 | a successful read depends on the metadata key and the tensor keys of the dataset read only |
| DatasetOperations.CopySucceedsIff | src/cpp/client.cpp:225-257 | a copy of a readable source succeeds if and only if the destination has a name, there is a field, and no destination key holds anything but a tensor |
| DatasetOperations.CopyTensorsIff | src/cpp/redis.cpp:271-296 | for every store and any two keys, the loop succeeds if and only if each tensor in turn is there, or was put there by the copy itself before, and its destination key is free for a tensor; each destination key then holds what it found |
| DatasetOperations.CopyIsItsCommands | src/cpp/client.cpp:241-256 | a successful copy leaves the store its command list leaves, for every order of sending the fields |
| DatasetOperations.DeleteCorrect | src/cpp/client.cpp:261-290 | with metadata that decodes, even if listed tensors are missing, deletion succeeds and removes exactly the metadata key and the listed tensor keys; no dataset reads under the key any more |
| DatasetOperations.RenameMovesIff | src/cpp/client.cpp:213-222 | for any two dataset keys, renaming makes the new name read as the old dataset if and only if the dataset would share no key under the two; the old name no longer reads; all other keys keep their values |
| DatasetOperations.RenameMovesToApartName | src/cpp/client.cpp:213-222 | in terms of names: renaming moves a dataset to every name it is not entangled with |
| DatasetOperations.RenameToSelf | src/cpp/client.cpp:213-222 | renaming onto the same key succeeds and destroys the dataset |
| DatasetOperations.PutThenDelete | src/cpp/client.cpp:261-290 | placing a dataset on unused keys and deleting it restores the store |
| DatasetOperations.OverwriteLeavesOrphans | src/cpp/client.cpp:261-290 | overwriting and deleting leaves exactly the tensors of the old dataset that the new one does not list |
| DatasetFailures.CopySucceedsForAnyIff | src/cpp/client.cpp:225-257 | for every store, any source, readable or not: a copy succeeds if and only if the metadata is there and decodes, its list is one of strings, every listed tensor can be fetched and stored in turn, the destination has a name and there is a field |
| DatasetFailures.UndescribedCopy | src/cpp/client.cpp:229-238 | without such metadata the copy throws and changes nothing: a key error if HGETALL comes back empty, a runtime error otherwise |
| DatasetFailures.DescribedCopy | src/cpp/client.cpp:225-257 | with it, which error a copy ends with, and that a failure leaves nothing but tensors at free tensor keys of the destination |
| DatasetFailures.FailedCopy | src/cpp/client.cpp:225-257 | a failed copy removes no key, changes none but free tensor keys of the destination, and brings no acknowledgement anywhere |
| DatasetFailures.MissingTensorFails | src/cpp/redis.cpp:239-296 | a listed tensor that is missing, and that the copy has not put there itself, makes the copy fail without a new acknowledgement |
| DatasetFailures.CopyStopsAt | src/cpp/redis.cpp:271-296 | a copy stops at the first tensor that cannot be fetched or stored: the tensors before it are there, no other key has changed |
| DatasetFailures.DeleteSucceedsIff | src/cpp/client.cpp:261-290 | a deletion succeeds if and only if the metadata is there and decodes with a list of strings; otherwise it throws and changes nothing |
| DatasetFailures.RenameSucceedsForAnyIff | src/cpp/client.cpp:213-222 | for every store and source a renaming succeeds if and only if its copy would; when it fails it has deleted nothing |
| DatasetFailures.FailedRename | src/cpp/client.cpp:213-222 | renaming a readable dataset to no name, without fields, or onto a tensor key that something else holds ends with an error; every key outside the destination's tensor keys keeps its value, and unless the two share tensor keys the source reads as before |
| AggregationLists.RunRefines | src/cpp/client.cpp:1460-1611 | with one prefix, every run of append, copy, rename and delete, failing calls included, is the run of the same operations on a map from list names to sequences; entries stay non-empty; no other key changes |
| AggregationLists.OpRefines | src/cpp/client.cpp:1503-1611 | one call: same success, same lists, and a call that fails changes nothing, so that `copy_list` never stops between its deletion and its push |
| AggregationLists.AppendSucceedsIff | src/cpp/client.cpp:1461-1481 | for every store: an append succeeds if and only if the key is absent or holds a list; it adds one entry at the end, and a failure changes nothing |
| AggregationLists.CopyListSucceedsIff | src/cpp/client.cpp:1503-1586 | for every store and any two prefixes: exactly when the copy succeeds, which error it ends with, and which keys it may have changed, the deletion before a late failure included |
| AggregationLists.RenameListSucceedsIff | src/cpp/client.cpp:1589-1611 | the same for renaming; a failure leaves the source list as it was |
| AggregationLists.CopyListReplacesIff | src/cpp/client.cpp:1548-1582 | for any two prefixes: when the copy succeeds, that the list the client then reads equals the source if and only if both prefixes give the same destination key, when the list under the put key does, and what becomes of the source |
| AggregationLists.RenameListMovesIff | src/cpp/client.cpp:1589-1611 | the same for renaming, where a put key that is the source's own key loses the list altogether |
| ListInterleaving.RenameAccountsForAll | src/cpp/client.cpp:1503-1611 | in every interleaving of one renaming with other clients' pushes to the two lists and any other commands: when it ends, where every entry is; of the source's entries exactly those pushed between the LRANGE and the last DEL are lost |
| ListInterleaving.NoLossIff | src/cpp/client.cpp:1503-1611 | a renaming that succeeds loses no entry of the source if and only if nothing was pushed there in between |
| ListInterleaving.EntryCanBeLost | src/cpp/client.cpp:1503-1611 | for every source and every entry, some run loses it while the call succeeds |
| ListInterleaving.RenameAlone | src/cpp/client.cpp:1589-1611 | left alone, the steps end with the result and the store of the whole call |
| ListInterleaving.InvariantHolds | src/cpp/client.cpp:1503-1611 | the inductive invariant: what both lists hold in each phase of every run |
| ListReads.ReadList | src/cpp/client.cpp:1825-1963 | with the metadata read in one store and the tensors in what other clients have made of it: the pipelined read fails only if an entry is empty or fails to read on its own across the two, and otherwise result i is what entry i reads as on its own, repeated entries included |
| ListReads.ReadAcrossIff | src/cpp/client.cpp:1825-1963 | for an entry that reads, the read across two stores is its own read in the first if and only if its listed tensors are the same in both |
| ListReads.UntouchedEntry | src/cpp/client.cpp:1825-1963 | commands in between that touch none of the entry's listed tensor keys change nothing about its read |
| ListReads.FlatKeyAt | src/cpp/client.cpp:1933-1960 | the running reply index at tensor j of entry i is the sum of the earlier tensor counts plus j, and the command there is for that tensor |
| ListReads.ReadHeaders | src/cpp/client.cpp:1889-1927 | the second pass unpacks every metadata reply or stops at the first that throws, and lists all tensor keys dataset by dataset |
| ListReads.UnpackTensors | src/cpp/client.cpp:1943-1959 | one round of the third pass consumes exactly the replies of its own dataset |
| ListReads.AddAllTensors | src/cpp/client.cpp:1933-1962 | the third pass gives every dataset its own replies |
| ListReads.AssembleReads | src/cpp/client.cpp:1943-1959 | adding an entry's own replies one by one is reading that entry alone |
| ListReads.EntryIsDatasetIff | src/cpp/client.cpp:1898-1908 | the list read of an entry is `get_dataset` on its name if and only if HGETALL does not come back empty |
| ListReads.MissingEntry | src/cpp/client.cpp:1898-1908 | if it comes back empty the list read gives an empty dataset and `get_dataset` a key error |
| Client.Server.RunInPipeline | src/cpp/redis.cpp:815-852 | all commands take effect in order, and the call throws if and only if some reply was an error |
| Client.Client.constructor | src/cpp/client.cpp:1730-1763 | a new client holds the parsed prefixes and the first of them as its data source |
| Client.Client.GetPrefixSettings | src/cpp/client.cpp:1730-1763 | the prefixes are the non-empty tokens of SSKEYIN, the first one active |
| Client.Client.SetDataSource | src/cpp/client.cpp:1212-1238 | a listed source becomes active; any other throws and changes nothing; the active source stays a listed one |
| Client.Client.SetDataSources | src/cpp/client.cpp:1212-1238 | after any run of calls, refused ones included, the active source is the last listed one asked for |
| Client.Client.SerializationMap | src/cpp/metadata.cpp:558-569 | every field once, in any order, with its serialization |
| Client.Client.AppendTensorCommands | src/cpp/client.cpp:2084-2096 | the tensor commands in iteration order after those already there |
| Client.Client.PutDataset | src/cpp/client.cpp:158-168 | sends nothing for an empty dataset; otherwise the store is that after the placement's commands, the call succeeds exactly when the dataset is then whole, and a well-formed dataset reads back |
| Client.Client.GetMetadata | src/cpp/client.cpp:1802-1807 | the decoded metadata hash, for every order of the reply |
| Client.Client.GetDataset | src/cpp/client.cpp:171-210 | the dataset specified, or the error the code throws |
| Client.Client.AddFetched | src/cpp/client.cpp:204-207 | the retrieved tensors are added one by one to the dataset, or the first bad name throws |
| Client.Client.CopyTensorsOneByOne | src/cpp/redis.cpp:271-296 | tensors are copied in order up to the first error |
| Client.Client.CopyDataset | src/cpp/client.cpp:225-257 | reads under the get prefix, writes under the put prefix, with the outcome specified |
| Client.Client.DeleteDataset | src/cpp/client.cpp:261-290 | one DEL of the metadata key and the listed tensor keys, or the error and no change |
| Client.Client.RenameDataset | src/cpp/client.cpp:213-222 | a copy and then a deletion, stopping if the copy throws |
| Client.Client.AppendToList | src/cpp/client.cpp:1461-1481 | pushes the dataset key under the put prefix |
| Client.Client.DeleteList | src/cpp/client.cpp:1484-1500 | deletes the key under the get prefix |
| Client.Client.CopyList | src/cpp/client.cpp:1503-1586 | all checks, the deletion under the get prefix and the push under the put prefix |
| Client.Client.RenameList | src/cpp/client.cpp:1589-1611 | the checks, the copy, then the deletion of the source |
| Client.Client.PerformLists | src/cpp/client.cpp:1460-1611 | any run of list calls of a client whose prefixes agree is the run of the same operations on a map of sequences; the entries it appends are dataset keys |
| Client.CallsRefine | src/cpp/client.cpp:1460-1611 | what a client appends is never empty, so that its calls meet the conditions of the refinement |
| Client.Client.GetDatasetListRange | src/cpp/client.cpp:1713-1726 | an unnamed list and a key of another type are refused; otherwise dataset i of the result is what entry start + i of the stored list reads as on its own, from start to end inclusive: a negative index counts from the end, ends past the list are cut to it, ends that enclose nothing give nothing |
| Client.KeyBytes | src/cpp/client.cpp:1766-1781 | dataset and list keys in bytes: the put prefix for placing and the get prefix for retrieving, each with a dot unless it is empty or its switch is off; braces around dataset names only |
| Client.WriteThenRead | src/cpp/client.cpp:158-210 | one client puts and another gets: with equal switches and, if on, the writer's put prefix as the reader's get prefix, a put that succeeds is read back as the dataset, and it succeeds if and only if the tensor keys are free |
| Store.SliceEntries | include/client.h:1287-1307 | a range by its entries: `xs[start]` to `xs[end]` inclusive, negative ends counted from the end of the list, ends past it cut, nothing for ends that enclose nothing |
| Metadata.FieldRoundTrip | src/cpp/metadata.cpp:572-637 | every field deserializes from its serialization |
| Metadata.FieldCanonical | src/cpp/metadata.cpp:572-637 | whatever buffer is accepted is the serialization of the field read from it |
| Metadata.HashRoundTrip | src/cpp/client.cpp:2108-2125 | fields survive the hash with or without the acknowledgement, which is never one of them |
| Metadata.HashCanonical | src/cpp/client.cpp:2108-2125 | reading a hash and writing it again gives the same bytes in every field |
| Metadata.UnpackListing | src/cpp/client.cpp:2108-2125 | unpacking gives the same fields for every order of the reply |
| Metadata.UnpackAcceptsIff | src/cpp/client.cpp:2108-2125 | a reply of pairs is accepted if and only if no name but the acknowledgement repeats and every field deserializes |
| Metadata.OddReplyRefused | src/cpp/client.cpp:2108-2125 | a reply of odd length is refused |
| Metadata.WordWidths | src/cpp/metadata.cpp:588-629 | for the type bytes 1, 4 and 6 a value is one word of 8 bytes and 4 bytes are refused; for 2, 3 and 5 it is one word of 4 bytes; 0 and all above 7 are refused (`include/sr_enums.h:49-58`) |
| Metadata.UnpackDatasetMetadata | src/cpp/client.cpp:2108-2125 | the loop over the reply's pairs, with its odd-length and bad-field errors |
| Metadata.AddSerializedField | src/cpp/metadata.cpp:572-637 | a repeated name, an unknown type and a malformed buffer are refused, anything else is added |
| Metadata.GenerateFieldBuf | src/cpp/metadata.cpp:558-569 | the serialization of one field |
| MetadataBuffer.StringsRoundTrip | include/metadatabuffer.h:242-344 | parsing what was serialized gives the strings back |
| MetadataBuffer.StringsCanonical | include/metadatabuffer.h:305-344 | every non-empty buffer that is accepted is the serialization of its strings |
| MetadataBuffer.StringsInjective | include/metadatabuffer.h:242-296 | different lists have different encodings |
| MetadataBuffer.StringsAcceptedIff | include/metadatabuffer.h:305-344 | a buffer is accepted if and only if it is empty or the serialization of some strings |
| MetadataBuffer.OneStringBytes | include/metadatabuffer.h:242-296 | a short string in bytes: the type 7, an 8-byte little-endian length, the text |
| MetadataBuffer.WordByte | include/metadatabuffer.h:283-294 | byte k of a length word is digit k of the length in base 256 |
| MetadataBuffer.StringsAppend | include/metadatabuffer.h:283-294 | strings are written one behind the other, after one type byte |
| MetadataBuffer.EntriesPrefix | include/metadatabuffer.h:283-294 | if one list's entries are a prefix of another's, the list is a prefix of the other |
| MetadataBuffer.CutOnBoundary | include/metadatabuffer.h:305-344 | a buffer cut on an entry boundary reads as exactly the strings before the cut |
| MetadataBuffer.CutInsideEntry | include/metadatabuffer.h:305-344 | a buffer cut anywhere else is refused |
| MetadataBuffer.GenerateStringBuf | include/metadatabuffer.h:242-296 | the copies fill exactly the size computed before, each in bounds, and give the encoding |
| MetadataBuffer.BufferSize | include/metadatabuffer.h:261-271 | the precomputed size is the length of the encoding |
| MetadataBuffer.AddBufData | include/metadatabuffer.h:77-84 | the copied range holds the data, all other bytes are unchanged |
| MetadataBuffer.UnpackStringBuf | include/metadatabuffer.h:305-344 | the cursor loop is the reference parser; the position never passes the end, so the early returns are dead |
| MetadataBuffer.SafeToReadMeaning | include/metadatabuffer.h:97-103 | for a position within the buffer the guard says exactly that the read fits |
| MetadataBuffer.SafeToReadWraps | include/metadatabuffer.h:97-103 | past the end the wrapped subtraction would accept a read |
| MetadataBuffer.Read | include/metadatabuffer.h:115-131 | the bytes at the position if they fit, an error if not |
| MetadataBuffer.Advance | include/metadatabuffer.h:146-158 | pointer and position move together and never past the end, or not at all |
| MetadataBuffer.ScalarsRoundTrip | include/metadatabuffer.h:196-235 | scalar fields of every width round-trip and the type byte comes back |
| MetadataBuffer.ScalarsCanonical | include/metadatabuffer.h:354-383 | a buffer is refused exactly when it is empty or its data is not a whole number of words; accepted ones re-serialize to the same bytes |
| MetadataBuffer.ScalarBytes | include/metadatabuffer.h:196-235 | value i stands i words behind the type byte |
| MetadataBuffer.TypeIsSigned | include/metadatabuffer.h:55-65 | the type is the first byte, taken as signed |
| MetadataBuffer.GenerateScalarBuf | include/metadatabuffer.h:196-235 | the type byte and the words fill the buffer |
| MetadataBuffer.UnpackScalarBuf | include/metadatabuffer.h:354-383 | the division and the one copy give the words of the reference reader |
| Keys.TensorKeysEqualIff | src/cpp/client.cpp:1989-2029 | for prefixes without `{`, exactly when two tensor keys are equal: same prefix, and the same names, or one dataset name continues the other with `}.` and the tensor names take up the difference |
| Keys.MetaKeyHitIff | src/cpp/client.cpp:1989-2029 | exactly when a tensor key is some dataset's metadata key |
| Keys.TensorKeysInjective | src/cpp/client.cpp:1989-2029 | unless one name continues the other with `}.`, a tensor key determines prefix, dataset and tensor, and is no other dataset's metadata key |
| Keys.SpacesApartIff | src/cpp/client.cpp:1989-2029 | for prefixes without `{`, the key spaces of two datasets do not meet if and only if the datasets are not entangled: another prefix, or names neither of which is the other or continues it with `}.` |
| Keys.PlainNamesEntangledIff | src/cpp/client.cpp:1989-2029 | names without `}` are entangled only with themselves |
| Keys.MetaKeyApart | src/cpp/client.cpp:2000-2029 | a tensor key is its dataset's metadata key exactly for a tensor called `meta` |
| Keys.ResolvePrefixInjective | src/cpp/client.cpp:1766-1781 | different configured prefixes give different key prefixes |
| Keys.ClosingBraceCollides | src/cpp/client.cpp:2000-2029 | a family of collisions that the exact condition allows |
| Keys.ReservedNameMisses | src/cpp/tensorbase.cpp:211-214 | the constructor refuses the tensor name `.meta`, whose key is harmless, and accepts `meta`, whose key is the metadata key |
| Keys.NameFromKey | src/cpp/client.cpp:2204-2233 | the name comes back from every dataset key, braces in it or not, if and only if the prefix has no `{` |
| Keys.NameOfAnyEntry | src/cpp/client.cpp:2204-2233 | the name taken from any entry with both braces, well-formed or not, in the wrapped arithmetic of the code |
| Keys.EntryRefused | src/cpp/client.cpp:2204-2233 | an entry is refused exactly when it misses one of the braces |
| Keys.EmptyNameAccepted | src/cpp/client.cpp:2222-2226 | the entry of an unnamed dataset passes the check meant to refuse it |
| Keys.DatasetKeysShareTag | src/cpp/client.cpp:1989-2029 | metadata and tensor keys share one server hash tag if and only if the name is not empty and does not begin with `}` |
| Keys.ClientTagMatchesServer | src/cpp/rediscluster.cpp:1340-1359 | exactly for which keys the client's tag is the server's (section "Hash tags" of the Redis Cluster Specification) |
| Prefixes.SplitPrefixes | src/cpp/client.cpp:1742-1757 | the two-pointer loop yields exactly the non-empty tokens between commas, in order |
| Prefixes.PartsOfJoin | src/cpp/client.cpp:1742-1757 | comma-free parts come back from their join |
| Prefixes.JoinOfParts | src/cpp/client.cpp:1742-1757 | every text is the join of comma-free parts, so that the tokens are defined for all texts |
| Prefixes.TokensOfJoin | src/cpp/client.cpp:1742-1757 | non-empty parts without comma and NUL, joined by commas, are split into exactly these parts |
| Prefixes.EmptyPartSkipped | src/cpp/client.cpp:1742-1757 | an empty part anywhere is skipped |
| Prefixes.CStringEnds | src/cpp/client.cpp:1742-1757 | the text ends at the first NUL, and a text without one is taken whole |
| Prefixes.ActiveIsListed | src/cpp/client.cpp:1212-1238 | over all later calls the active prefix is a listed token, or empty if there is none, and the first token until another listed one is asked for |
| ModelChunks.SplitModel | src/cpp/client.cpp:713-723 | terminates with ceil(length / chunk) segments, all full but possibly the last, none empty, concatenating to the model |
| ModelChunks.TotalLength | src/cpp/client.cpp:829-833 | the allocated length is that of all segments together |
| ModelChunks.ReassembleAsWritten | src/cpp/client.cpp:828-840 | the loop as written overlays every segment at offset 0 of uninitialized memory, each copy in bounds |
| ModelChunks.ReassembleAdvancing | src/cpp/client.cpp:828-840 | with an advancing offset the loop gives the concatenation the comment describes |
| ModelChunks.AsWrittenIff | src/cpp/client.cpp:837-839 | the loop as written gives the concatenation, whatever the memory held, if and only if at most one segment is not empty |
| ModelChunks.SplitModelSurvivesIff | src/cpp/client.cpp:807-840 | a model that was split survives the loop as written if and only if it fits one segment |
| Address.SRAddress.Parse | src/cpp/address.cpp:36-79 | the constructor accepts and rejects what the specification says and holds the place it names |
| Address.SRAddress.Equals | src/cpp/address.cpp:81-90 | two addresses are equal exactly when they name the same place |
| Address.SRAddress.Render | src/cpp/address.cpp:93-102 | the printed form of the place |
| Address.SRAddress.constructor | include/address.h:53 | the default address |
| Address.PrintedFormNamesIt | src/cpp/address.cpp:36-102 | for every text accepted, parsing its printed form, with or without `tcp://`, names the same place |
| Address.NamedIff | src/cpp/address.cpp:36-79 | which texts an address accepts: anything after `unix://`, or after `tcp://` or no scheme a host that is not empty, the first colon and a text that begins with a number |
| Address.StoulOfDecimal | src/cpp/address.cpp:63 | every 64-bit number printed in decimal survives base-0 parsing, zero included |
| Address.UnsignedDecimal | src/cpp/address.cpp:63 | decimal digits are read as their number, up to the first that is none; a number of more than 64 bits is refused |
| Address.UnsignedHex | src/cpp/address.cpp:63 | the same for hexadecimal digits behind `0x` or `0X` |
| Address.UnsignedOctal | src/cpp/address.cpp:63 | the same for octal digits behind `0` |
| Address.SignRead | src/cpp/address.cpp:63 | one sign is read, and minus wraps around |
| Address.SpaceSkipped | src/cpp/address.cpp:63 | leading white space is skipped, any other character but a sign or digit is refused |
| Address.DigitValues | src/cpp/address.cpp:63 | the values of all digits, in either case |
| Address.NoDigit | src/cpp/address.cpp:63 | a text without a leading digit is refused |
| Address.ParsersAgree | include/addressatcommand.h:79-133 | the command parser accepts exactly the scheme-free texts that an address accepts; hosts are equal and ports equal modulo 2^16 |
| Address.PortTruncated | include/addressatcommand.h:109-133 | for every host and every decimal port the command parser returns the port and the address the port modulo 2^16 |
| ClusterInfo.ParseDbClusterInfo | src/cpp/clusterinfocommand.cpp:35-57 | the loop terminates with the map that adding the terminated lines one after the other builds |
| ClusterInfo.LinesOfPrint | src/cpp/clusterinfocommand.cpp:35-57 | printed lines are found again, and an unterminated tail is not a line |
| ClusterInfo.TextIsPrint | src/cpp/clusterinfocommand.cpp:35-57 | every text is such a print with a tail |
| ClusterInfo.LastWins | src/cpp/clusterinfocommand.cpp:44-53 | a key's value is that of the last line that sets it; blank lines set none |
| ClusterInfo.KeyValueLine | src/cpp/clusterinfocommand.cpp:51-53 | a `key:value` line with a colon-free key is split into exactly these |
| ClusterInfo.NoColonLine | src/cpp/clusterinfocommand.cpp:51-53 | a line without a colon is its own key and value |
| ClusterInfo.ParsesPrintedPairs | src/cpp/clusterinfocommand.cpp:35-57 | a reply printed from `key:value` lines, any unterminated tail after it, parses to the last-wins map |
| CRange.FillSlots | src/c/c_client.cpp:1452-1462 | the slots are filled if the size check passes, and untouched if it throws |
| CRange.DeliveredIff | src/c/c_client.cpp:1450-1456 | which ranges of a list pass the size check: for start <= end, exactly those whose ends name entries counted from the same end |

## Left out

- Interleaving.ReaderSeesWholeDataset: covers one writer per dataset; two clients that place the same dataset at the same time are not covered.
- Interleaving.ReaderCanFinishIff: says that a finishing run exists, not that every fair run finishes; sleeping and the number of poll tries are not modelled, a reader may poll any number of times.
- DatasetOperations.CopyApart: copy, rename and delete are proved as whole calls; interleaved are the commands a copy sends to its destination, not its reads of the source while other clients change that.
- ListReads.ReadList: each of the two pipelines sees one store; changes between the replies of one pipeline are not covered.
- AggregationLists.RunRefines: calls run one after the other there; interleaved command by command is one renaming with other clients' pushes, not two renamings or copies of the same lists.
- Client.Client.CopyList: the final check looks at the wrong reply (`src/cpp/client.cpp:1584`); the model reports the error of the RPUSH itself, which the lists of `AggregationLists.RunRefines` never raise.
- DatasetBuilding.DataSetObject.Add: a null data pointer and an invalid type number, which the constructor also refuses, do not exist in the model.
- Address.SRAddress.Parse: the port of a Unix-socket address stays as it was, since the source leaves it unset and never reads it; the `0b` prefix that newer C libraries accept in base 0 is not modelled.
- CRange.DeliveredIff: C arithmetic that overflows `int` is excluded, being undefined.
- DataSets in the client are values: the pointers and memory pools of `DataSet`, `TensorPack` and `MetaData` are not part of this model, and neither are row- and column-major copies; tensors are typed blobs.
- Floating-point meaning of scalars and tensors: they are fixed-width words of bytes.
- `Redis` and `RedisCluster` beyond their contracts: sockets, retries (an I/O error sends a whole pipeline again), shard grouping, CRC16 and slot search.
- Tensor and model prefixes, the in-place prefix loops over key vectors, and the four prefix setters: they repeat what is shown for datasets and lists.
- List length and list polling: single commands in a retry loop.
- Setting and running models and scripts, device and backend checks, batch settings: single-branch checks.
- The C interface but for one range wrapper, the Fortran and Python interfaces, logging, configuration files and allocation failures.
