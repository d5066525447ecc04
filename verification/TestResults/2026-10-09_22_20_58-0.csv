TestResult.DisplayName,TestResult.Outcome,TestResult.Duration,TestResult.ResourceCount,RandomSeed
ManagerPage.IndexMismatch (correctness),Failed,00:00:01.1736296,2104285,0
