# nbkickoff, modelled in Dafny

nbkickoff creates a Jupyter notebook from a template notebook and opens it.
It replaces every `{{ name }}` placeholder in the cells' sources by the value
given for `name` on the command line. It writes the result to a target file,
which must not exist yet. Then it opens the new notebook in a running
notebook server whose root directory holds it, preferring the deepest such
root. If no running server can serve it, it launches a new one.

The model has five modules, one file each:

- `wrappers.dfy` (`Wrappers`): `Option`, `Result` and `Outcome`. Raised exceptions become values of these types.
- `text.dfy` (`Text`): Python's `str.replace` for a non-empty pattern, given as the recursive function `Replace`. Lemmas state what it does: the leftmost occurrence is replaced and scanning resumes after it; text without the pattern is returned unchanged. `IndexOf` finds the first occurrence of a character.
- `dicts.dfy` (`Dicts`): a Python `dict[str, str]`, modelled as an association list in insertion order with distinct names (`Dict`). It has `d.get` (`Lookup`), `d[k] = v` (`Put`) and `{**a, **b}` (`Update`), with the order of the names (`Names`) each of them leaves.
- `template.dfy` (`Template`): `nbkickoff/template.py`. Substitution is a loop method proved against the fold `Substituted`. The in-place fill runs over an `array<Cell>`. The file system is a class `FileStore` holding a map from path to file.
- `kickoff.dfy` (`Kickoff`): the pure parts of `nbkickoff/nbkickoff.py`. These are `relative_to`/`is_relative_to` on paths given as lists of parts, `find_running_server`, and the decision `open_notebook` takes. It also covers `parse_template_var` and `DictMergeAction`, the latter as a class whose `Call` updates a `Namespace` object.

Two points of behaviour are fixed by the code and kept in the model:

- Variables are substituted in the dict's insertion order. A value that contains placeholder syntax is substituted again by every later variable (`OrderMatters`). The code iterates `template_vars.items()`, and Python dicts iterate in insertion order, so variables are substituted in the order their names were first given on the command line (`Kickoff.MergedAllNames`).
- Ties between equally deep server roots go to the first record in list order. Python's `max` keeps the first maximal element.

## Model

| member | source | states |
|---|---|---|
| `Text.Replace` | nbkickoff/template.py:24 | replacing the pattern by itself gives the text back; with `ReplaceAtFirst` and `ReplaceNoMatch` its result is fixed for every input |
| `Text.ReplaceNoMatch` | nbkickoff/template.py:24 | `str.replace` returns a text without any occurrence of the pattern unchanged |
| `Text.ReplaceAtFirst` | nbkickoff/template.py:24 | `str.replace` keeps the text before the leftmost occurrence, puts the value in its place, and resumes after it, so replaced occurrences never overlap |
| `Text.ReplaceOnce` | nbkickoff/template.py:24 | a text in which the pattern occurs exactly once has just that occurrence replaced |
| `Text.IndexOf` | nbkickoff/nbkickoff.py:80-82 | returns `None` iff the character is absent, and otherwise its first index |
| `Dicts.Lookup` | nbkickoff/nbkickoff.py:91 | a name has a value iff it is among the dict's keys |
| `Dicts.Put` | nbkickoff/nbkickoff.py:91 | after `d[k] = v`, `k` maps to `v` and every other name keeps its value; an existing name keeps its position and a new one is appended |
| `Dicts.Update` | nbkickoff/nbkickoff.py:91 | `{**a, **b}` has the keys of both; names of `b` take `b`'s value and the others keep `a`'s |
| `Dicts.UpdateNames` | nbkickoff/nbkickoff.py:91 | in `{**a, **b}`, `a`'s names keep their places and `b`'s names that `a` lacks follow, in `b`'s order |
| `Template.PlaceholderParts` | nbkickoff/template.py:24 | the placeholder of `name` is `{{ `, then `name`, then ` }}`, so distinct names have distinct placeholders |
| `Template.SubstituteTemplateVars` | nbkickoff/template.py:22-25 | the loop's result is the fold `Substituted` of the input over the variables in insertion order; with no variables it is the input itself |
| `Template.SubstitutedSplit` | nbkickoff/template.py:23-24 | substitution is a left fold: substituting the first `n` variables and then the rest gives the full result, so each step works on the previous step's output |
| `Template.SubstitutedSingle` | nbkickoff/template.py:24 | with one variable, substitution is one `str.replace` of its placeholder `{{ name }}` |
| `Template.SubstitutedPair` | nbkickoff/template.py:23-24 | with two variables, the second variable's placeholders are replaced in the first variable's result |
| `Template.SubstitutedWithoutPlaceholders` | nbkickoff/template.py:22-25 | a text without the placeholder of any of the map's names is returned unchanged, whatever the values |
| `Template.SubstitutedWithoutBraces` | nbkickoff/template.py:24 | a text without `{{` is returned unchanged for every variable map |
| `Template.SubstitutedOnce` | nbkickoff/template.py:22-25 | for one variable whose placeholder occurs once in the source, the result is the source with that occurrence replaced, whatever other braces come before it |
| `Template.BracesBeforePlaceholder` | nbkickoff/template.py:22-25 | `{x} {{ a }}` with `{'a': 'v'}` becomes `{x} v`: braces that do not form the placeholder are kept |
| `Template.DocstringExample` | nbkickoff/template.py:7-15 | `some_python_code('{{ my_variable }}')` with `{'my_variable': 'lorem ipsum'}` becomes `some_python_code('lorem ipsum')` |
| `Template.OrderMatters` | nbkickoff/template.py:23-24 | the result depends on the order of the variables when a value holds placeholder syntax |
| `Template.FilledDocStructure` | nbkickoff/template.py:28-30 | filling keeps the number and order of cells, every non-source field and the notebook's other fields, and sets each source to its substitution |
| `Template.FilledDocWithoutBraces` | nbkickoff/template.py:28-30 | a notebook without `{{` in any source comes out of filling unchanged |
| `Template.FilledDocEmpty` | nbkickoff/template.py:28-30 | filling with an empty map changes nothing |
| `Template.Instantiated` | nbkickoff/template.py:39-40 | the written document is the filled template whenever variables are given (an empty map fills to the same document) and the template as read otherwise; either way cells and fields other than sources are kept |
| `Template.InstantiatedWithoutVars` | nbkickoff/template.py:39-40 | with `template_vars` `None` or empty, the written document is the template document |
| `Template.Notebook.Read` | nbkickoff/template.py:37 | reading gives a fresh in-memory notebook whose document is the stored one |
| `Template.FillNotebookTemplate` | nbkickoff/template.py:28-30 | the in-place update leaves the notebook's document equal to `FilledDoc` of the old one |
| `Template.FileStore.CreateNotebookFromTemplate` | nbkickoff/template.py:33-42 | an existing target gives `FileExistsError` with the source's message. A missing template fails, and so does one that is not a notebook. On every failure the store is unchanged. The call succeeds exactly when the target is absent and the template is a notebook, and then exactly the target is added, holding the template, filled only when variables are given |
| `Template.CreateTwice` | nbkickoff/template.py:34-35 | after a successful creation, creating the same target again fails with `FileExistsError` and the first file stays as written |
| `Kickoff.RelativeTo` | nbkickoff/nbkickoff.py:20-25 | a relative path, when there is one, completes `root` to `path`; `relative_to` fails only when `root`'s parts are not a prefix of `path`'s or when an empty root meets an absolute path |
| `Kickoff.IsRelativeTo` | nbkickoff/nbkickoff.py:20-25 | `is_relative_to(path, root)` iff `root`'s parts are a prefix of `path`'s, except that an empty root is refused for an absolute path |
| `Kickoff.RelativeToSelf` | nbkickoff/nbkickoff.py:20-25 | every path lies under itself with an empty remainder |
| `Kickoff.IsRelativeToTransitive` | nbkickoff/nbkickoff.py:20-25 | lying under is transitive |
| `Kickoff.PartsNotCharacters` | nbkickoff/nbkickoff.py:20-25 | `/abc` is a string prefix of `/abcd/x` but not an ancestor of it |
| `Kickoff.Matching` | nbkickoff/nbkickoff.py:30-31 | the list comprehension keeps only listed servers that serve the target |
| `Kickoff.MaxByDepth` | nbkickoff/nbkickoff.py:33 | `max` returns the starting element or one of the rest |
| `Kickoff.FindRunningServer` | nbkickoff/nbkickoff.py:28-35 | a returned record is one of the listed records and its root is an ancestor of the target |
| `Kickoff.MaxByDepthOfMatching` | nbkickoff/nbkickoff.py:30-33 | continuing `max` from a record over the serving ones: the record stays iff no later serving record is strictly deeper. Otherwise the result is the first of the deepest |
| `Kickoff.FindRunningServerIndex` | nbkickoff/nbkickoff.py:28-35 | the result is `None` with no serving record, or the record at the index of the first deepest serving record |
| `Kickoff.FindRunningServerSpec` | nbkickoff/nbkickoff.py:28-35 | `None` iff no record serves the target. Otherwise the result serves it, no serving record is deeper, and every earlier serving record is shallower |
| `Kickoff.MostSpecificRootExample` | nbkickoff/nbkickoff.py:33 | with roots `/a` and `/a/b`, the notebook `/a/b/c/file` goes to the `/a/b` server, in either list order |
| `Kickoff.OpenNotebook` | nbkickoff/nbkickoff.py:47-50 | when a server is used, it is listed, it serves the target, and root parts followed by the relative parts are the target's parts |
| `Kickoff.OpenNotebookSpec` | nbkickoff/nbkickoff.py:45-59 | a new server (`python -m notebook --NotebookApp.open_browser=True <file>`) is launched iff no server serves the target. Otherwise the notebook opens in the server `find_running_server` returns |
| `Kickoff.ParseTemplateVar` | nbkickoff/nbkickoff.py:79-83 | refuses a string without `=` with the source's message. Otherwise it returns one entry whose name has no `=`, with name + `=` + value equal to the input |
| `Kickoff.ParseTemplateVarRoundTrip` | nbkickoff/nbkickoff.py:79-83 | `name=value` with no `=` in the name parses back to `{name: value}`, even when the value holds `=` |
| `Kickoff.MergedAllKeys` | nbkickoff/nbkickoff.py:87-91 | the merged names are the existing names together with every name of the new dicts |
| `Kickoff.MergedAllLastWins` | nbkickoff/nbkickoff.py:90-91 | a repeated name takes the value of the last dict that binds it |
| `Kickoff.MergedAllKeepsStart` | nbkickoff/nbkickoff.py:87-91 | a name none of the new dicts binds keeps its earlier value |
| `Kickoff.MergedAllNames` | nbkickoff/nbkickoff.py:87-91 | the existing names keep their places and every other name follows in the order it was first given, so the command line's order is the substitution order |
| `Kickoff.DictMergeAction.Call` | nbkickoff/nbkickoff.py:85-92 | the destination attribute becomes the existing dict (or `{}` if missing or `None`) merged with every value in order; no other attribute changes |

## Left out

- Opening the browser (nbkickoff/nbkickoff.py:53-56): `NotebookApp` configuration loading and `webbrowser` are library side effects. The two `logging.info` messages (nbkickoff/nbkickoff.py:49, 58) are output only and are not modelled. The model stops at the decision `OpenInBrowser(server, relative parts)`.
- The notebook URL (nbkickoff/nbkickoff.py:51): `url_path_join`, `url_escape` and `as_posix` are library code. The model keeps only the relative parts they are applied to.
- `launch_detached_process` (nbkickoff/nbkickoff.py:38-42): platform-specific process spawning. The model returns the command line it would be given (`LaunchServer`).
- `enable_interactive`, `kickoff` and the `argparse` set-up of `main` (nbkickoff/nbkickoff.py:61-100): extension installation and glue. `DictMergeAction.__call__` ignores its parser and option-string arguments, so the model omits them.
- `notebookapp.list_running_servers()` and `Path.resolve(strict=True)` (nbkickoff/nbkickoff.py:29-30, 50): the server list and the resolved target are inputs. Symlink resolution and the `FileNotFoundError` of a missing target are not modelled. Server roots arrive already split into parts; parsing path strings into `pathlib` parts is not modelled.
- `Kickoff.RelativeTo`: models POSIX paths only. Windows drives and the case-insensitive comparison of Windows paths are not modelled.
- `nbformat.read`/`nbformat.write` (nbkickoff/template.py:37, 42): JSON parsing, validation and format versions are not modelled. A stored file is either a notebook document or other content. Reading other content fails (`NotJsonError`) and a missing template gives `FileNotFoundError`. The exact exception classes nbformat raises are not modelled.
- `nbformat.write` (nbkickoff/template.py:42): the write always succeeds in the model. A missing parent directory or a permission error would make it raise in the source.
- `Template.FileStore`: keys files by path string. Two strings naming the same file (relative and absolute, symlinks) are distinct keys here.
- The race between the existence check and the write (nbkickoff/template.py:34-42): concurrency is outside a sequential model.
- `Text.Replace`: requires a non-empty pattern. Python's `str.replace` with an empty pattern inserts the value before every character and at the end, but every placeholder `{{ name }}` has at least six characters.
- `Kickoff.Namespace`: holds only the dict-valued attributes. The string attributes `template` and `target` are not modelled.
- setup.py: packaging metadata, no behaviour.
